/** The provider's operation index: every operation binding under the name
    its `$name` gives, and the OperationDefinition merged from the bindings
    sharing a name. */
module OperationIndex {
  import opened Util
  import opened JavaStrings
  import opened Collections
  import opened Fhir
  import opened Bindings

  /** The static type `OperationMethodBinding`. */
  type OperationMethodBinding = b: MethodBinding | b.kind.OperationBinding?
    witness MethodBinding(0, None, None, false, OperationBinding("$", None, true, false, false, [], []))

  // Indexing (initializeOperations).

  /** The operation bindings among `bs`, in order, repeats kept. */
  function OperationBindingsOf(bs: seq<MethodBinding>): (r: seq<OperationMethodBinding>)
    ensures forall b :: b in r <==> b in bs && b.kind.OperationBinding?
  {
    if bs == [] then []
    else
      var p := bs[..|bs| - 1];
      var b := bs[|bs| - 1];
      assert bs == p + [b];
      OperationBindingsOf(p) + (if b.kind.OperationBinding? then [b] else [])
  }

  /** The bindings of `bs` whose operation name is `n`, in order. */
  function Named(bs: seq<OperationMethodBinding>, n: string): (r: seq<OperationMethodBinding>)
    ensures forall b :: b in r <==> b in bs && CreateOperationName(b) == n
  {
    if bs == [] then []
    else
      var p := bs[..|bs| - 1];
      var b := bs[|bs| - 1];
      assert bs == p + [b];
      Named(p, n) + (if CreateOperationName(b) == n then [b] else [])
  }

  predicate IsOperationBinding(b: MethodBinding)
  {
    b.kind.OperationBinding?
  }

  /** The operation bindings are those of `bs`, in order, repeats kept. */
  lemma {:induction false} OperationBindingsInOrder(bs: seq<MethodBinding>)
    ensures FilterAt(bs, OperationBindingsOf(bs), IsOperationBinding, Positions(IsOperationBinding, bs))
  {
    if bs != [] {
      var p := bs[..|bs| - 1];
      OperationBindingsInOrder(p);
      FilterAtAppend(bs, OperationBindingsOf(p), IsOperationBinding, Positions(IsOperationBinding, p));
    }
  }

  function NameIs(n: string): OperationMethodBinding -> bool
  {
    (b: OperationMethodBinding) => CreateOperationName(b) == n
  }

  /** The bindings named `n` are those of `bs`, in order, repeats kept. */
  lemma {:induction false} NamedInOrder(bs: seq<OperationMethodBinding>, n: string)
    ensures FilterAt(bs, Named(bs, n), NameIs(n), Positions(NameIs(n), bs))
  {
    if bs != [] {
      var p := bs[..|bs| - 1];
      NamedInOrder(p, n);
      FilterAtAppend(bs, Named(p, n), NameIs(n), Positions(NameIs(n), p));
    }
  }

  /** The distinct operation bindings named `n`, in the order first visited. */
  function NamedOperations(bs: seq<MethodBinding>, n: string): seq<OperationMethodBinding>
  {
    Named(DistinctBy(Identity, OperationBindingsOf(bs)), n)
  }

  /** The two maps after visiting `bs`: each operation binding is indexed under
      its name, and each name lists its bindings once each, in visiting order. */
  ghost predicate IndexDescribes(toName: map<OperationMethodBinding, string>,
                                 toBindings: map<string, seq<OperationMethodBinding>>, bs: seq<MethodBinding>)
  {
    NamesDescribe(toName, bs) && ListsDescribe(toBindings, bs)
  }

  ghost predicate NamesDescribe(toName: map<OperationMethodBinding, string>, bs: seq<MethodBinding>)
  {
    && (forall b: OperationMethodBinding :: b in toName <==> b in bs)
    && (forall b | b in toName :: toName[b] == CreateOperationName(b))
  }

  ghost predicate ListsDescribe(toBindings: map<string, seq<OperationMethodBinding>>, bs: seq<MethodBinding>)
  {
    && (forall n :: n in toBindings <==> NamedOperations(bs, n) != [])
    && (forall n | n in toBindings :: toBindings[n] == NamedOperations(bs, n))
  }

  lemma NamedAppend(bs: seq<OperationMethodBinding>, b: OperationMethodBinding, n: string)
    ensures Named(bs + [b], n) == Named(bs, n) + (if CreateOperationName(b) == n then [b] else [])
  {
    assert (bs + [b])[..|bs|] == bs;
  }

  lemma OperationBindingsAppend(visited: seq<MethodBinding>, b: MethodBinding)
    requires !b.kind.OperationBinding?
    ensures OperationBindingsOf(visited + [b]) == OperationBindingsOf(visited)
  {
    assert (visited + [b])[..|visited|] == visited;
  }

  lemma OperationBindingsAppendOp(visited: seq<MethodBinding>, b: OperationMethodBinding)
    ensures OperationBindingsOf(visited + [b]) == OperationBindingsOf(visited) + [b]
  {
    assert (visited + [b])[..|visited|] == visited;
  }

  /** What visiting one more binding does to the list under `n`. */
  lemma IndexStep(visited: seq<MethodBinding>, b: MethodBinding, n: string)
    ensures NamedOperations(visited + [b], n)
         == NamedOperations(visited, n)
            + (if b.kind.OperationBinding? && b !in visited && CreateOperationName(b) == n then [b] else [])
  {
    var ops := OperationBindingsOf(visited);
    if b.kind.OperationBinding? {
      var ob: OperationMethodBinding := b;
      OperationBindingsAppendOp(visited, ob);
      DistinctAppend(ops, ob);
      assert ob in ops <==> b in visited;
      if b !in visited {
        NamedAppend(DistinctBy(Identity, ops), ob, n);
      }
    } else {
      OperationBindingsAppend(visited, b);
    }
  }

  /** Indexes one binding, unless it is not an operation or
      was indexed already. */
  method IndexBinding(toName: map<OperationMethodBinding, string>, toBindings: map<string, seq<OperationMethodBinding>>,
                      b: MethodBinding, ghost visited: seq<MethodBinding>)
    returns (toName': map<OperationMethodBinding, string>, toBindings': map<string, seq<OperationMethodBinding>>)
    requires IndexDescribes(toName, toBindings, visited)
    ensures IndexDescribes(toName', toBindings', visited + [b])
  {
    toName', toBindings' := toName, toBindings;
    if b.kind.OperationBinding? {
      var methodBinding: OperationMethodBinding := b;
      if methodBinding in toName {
        IndexSkip(toName, toBindings, visited, b);
        return;
      }
      var name := CreateOperationName(methodBinding);
      toName' := toName[methodBinding := name];
      if name !in toBindings {
        toBindings' := toBindings'[name := []];
      }
      toBindings' := toBindings'[name := toBindings'[name] + [methodBinding]];
      IndexAdd(toName, toBindings, visited, methodBinding, toBindings');
    } else {
      IndexSkip(toName, toBindings, visited, b);
    }
  }

  lemma IndexSkip(toName: map<OperationMethodBinding, string>, toBindings: map<string, seq<OperationMethodBinding>>,
                  visited: seq<MethodBinding>, b: MethodBinding)
    requires IndexDescribes(toName, toBindings, visited)
    requires b.kind.OperationBinding? ==> b in visited
    ensures IndexDescribes(toName, toBindings, visited + [b])
  {
    forall n
      ensures NamedOperations(visited + [b], n) == NamedOperations(visited, n)
    {
      IndexStep(visited, b, n);
    }
  }

  lemma IndexAdd(toName: map<OperationMethodBinding, string>, toBindings: map<string, seq<OperationMethodBinding>>,
                 visited: seq<MethodBinding>, b: OperationMethodBinding, toBindings': map<string, seq<OperationMethodBinding>>)
    requires IndexDescribes(toName, toBindings, visited)
    requires b !in visited
    requires toBindings'.Keys == toBindings.Keys + {CreateOperationName(b)}
    requires forall n | n in toBindings' :: toBindings'[n]
               == (if n in toBindings then toBindings[n] else []) + (if n == CreateOperationName(b) then [b] else [])
    ensures IndexDescribes(toName[b := CreateOperationName(b)], toBindings', visited + [b])
  {
    NamesAdd(toName, visited, b);
    ListsAdd(toBindings, visited, b, toBindings');
  }

  lemma NamesAdd(toName: map<OperationMethodBinding, string>, visited: seq<MethodBinding>, b: OperationMethodBinding)
    requires NamesDescribe(toName, visited)
    ensures NamesDescribe(toName[b := CreateOperationName(b)], visited + [b])
  {
  }

  lemma ListsAdd(toBindings: map<string, seq<OperationMethodBinding>>, visited: seq<MethodBinding>, b: OperationMethodBinding,
                 toBindings': map<string, seq<OperationMethodBinding>>)
    requires ListsDescribe(toBindings, visited)
    requires b !in visited
    requires toBindings'.Keys == toBindings.Keys + {CreateOperationName(b)}
    requires forall n | n in toBindings' :: toBindings'[n]
               == (if n in toBindings then toBindings[n] else []) + (if n == CreateOperationName(b) then [b] else [])
    ensures ListsDescribe(toBindings', visited + [b])
  {
    var name := CreateOperationName(b);
    forall n
      ensures n in toBindings' <==> NamedOperations(visited + [b], n) != []
      ensures n in toBindings' ==> toBindings'[n] == NamedOperations(visited + [b], n)
    {
      IndexStep(visited, b, n);
      assert n in toBindings' <==> n in toBindings.Keys + {name};
      if n != name {
        assert n in toBindings' <==> n in toBindings;
      }
    }
  }

  /** `initializeOperations`: visits the grouped bindings in ascending name
      order and indexes every operation binding. */
  method IndexOperations(m: map<string, seq<MethodBinding>>)
    returns (toName: map<OperationMethodBinding, string>, toBindings: map<string, seq<OperationMethodBinding>>)
    ensures IndexDescribes(toName, toBindings, VisitOrder(m))
  {
    toName, toBindings := map[], map[];
    var keys := SortedElements(m.Keys);
    assert forall k :: k in keys ==> k in m;
    ghost var visited: seq<MethodBinding> := [];
    for i := 0 to |keys|
      invariant visited == Flatten(keys[..i], m)
      invariant IndexDescribes(toName, toBindings, visited)
    {
      SnocSlice(keys, i);
      FlattenAppend(keys[..i], keys[i], m);
      toName, toBindings := IndexBindings(toName, toBindings, m[keys[i]], visited);
      visited := visited + m[keys[i]];
    }
    assert keys[..|keys|] == keys;
  }

  /** Indexes the bindings of one name, in order. */
  method IndexBindings(toName: map<OperationMethodBinding, string>, toBindings: map<string, seq<OperationMethodBinding>>,
                       nextMethodBindings: seq<MethodBinding>, ghost visited: seq<MethodBinding>)
    returns (toName': map<OperationMethodBinding, string>, toBindings': map<string, seq<OperationMethodBinding>>)
    requires IndexDescribes(toName, toBindings, visited)
    ensures IndexDescribes(toName', toBindings', visited + nextMethodBindings)
  {
    toName', toBindings' := toName, toBindings;
    ghost var seen := visited;
    for j := 0 to |nextMethodBindings|
      invariant seen == visited + nextMethodBindings[..j]
      invariant IndexDescribes(toName', toBindings', seen)
    {
      SnocSlice(nextMethodBindings, j);
      toName', toBindings' := IndexBinding(toName', toBindings', nextMethodBindings[j], seen);
      seen := seen + [nextMethodBindings[j]];
    }
    assert nextMethodBindings[..|nextMethodBindings|] == nextMethodBindings;
  }

  /** The two maps agree: a binding is listed under a name exactly when it is
      indexed under that name, every list is non-empty, and no list holds a
      binding twice. */
  lemma IndexConsistent(toName: map<OperationMethodBinding, string>,
                        toBindings: map<string, seq<OperationMethodBinding>>, bs: seq<MethodBinding>)
    requires IndexDescribes(toName, toBindings, bs)
    ensures forall n, b :: n in toBindings && b in toBindings[n] <==> b in toName && toName[b] == n
    ensures forall n | n in toBindings :: toBindings[n] != []
    ensures forall n | n in toBindings :: forall i, j :: 0 <= i < j < |toBindings[n]| ==> toBindings[n][i] != toBindings[n][j]
    ensures forall n, i, j | n in toBindings && 0 <= i < j < |toBindings[n]| ::
              MetBefore(bs, toBindings[n][i], toBindings[n][j])
  {
    var d := DistinctBy(Identity, OperationBindingsOf(bs));
    KeySetIdentity(d);
    KeySetIdentity(OperationBindingsOf(bs));
    forall n | n in toBindings
      ensures forall i, j :: 0 <= i < j < |toBindings[n]| ==> toBindings[n][i] != toBindings[n][j]
    {
      NamedDistinct(d, n);
    }
    forall n, b: OperationMethodBinding | b in toName && toName[b] == n
      ensures n in toBindings && b in toBindings[n]
    {
      assert b in NamedOperations(bs, n);
    }
    forall n, i, j | n in toBindings && 0 <= i < j < |toBindings[n]|
      ensures MetBefore(bs, toBindings[n][i], toBindings[n][j])
    {
      NamedDistinct(d, n);
      NamedMetBefore(bs, n, i, j);
    }
  }

  /** Under each name, an earlier binding was first visited before a later one. */
  lemma NamedMetBefore(bs: seq<MethodBinding>, n: string, i: nat, j: nat)
    requires i < j < |NamedOperations(bs, n)|
    requires forall k, l :: 0 <= k < l < |NamedOperations(bs, n)| ==> NamedOperations(bs, n)[k] != NamedOperations(bs, n)[l]
    ensures MetBefore(bs, NamedOperations(bs, n)[i], NamedOperations(bs, n)[j])
  {
    var ops := OperationBindingsOf(bs);
    var d := DistinctBy(Identity, ops);
    var named := Named(d, n);
    var a, b := named[i], named[j];
    MetBeforeDistinct(named, i, j);
    NamedInOrder(d, n);
    assert b in named;
    FilterMetBefore(d, named, NameIs(n), Positions(NameIs(n), d), a, b);
    DistinctMetBefore(ops, a, b);
    var p :| 0 <= p < |ops| && ops[p] == a && b !in ops[..p];
    var ops': seq<MethodBinding> := ops;
    assert ops'[p] == a && b !in ops'[..p];
    OperationBindingsInOrder(bs);
    FilterMetBefore(bs, ops', IsOperationBinding, Positions(IsOperationBinding, bs), a, b);
  }

  lemma {:induction false} NamedDistinct(bs: seq<OperationMethodBinding>, n: string)
    requires forall i, j :: 0 <= i < j < |bs| ==> bs[i] != bs[j]
    ensures forall i, j :: 0 <= i < j < |Named(bs, n)| ==> Named(bs, n)[i] != Named(bs, n)[j]
  {
    if bs != [] {
      var p := bs[..|bs| - 1];
      var b := bs[|bs| - 1];
      NamedDistinct(p, n);
      assert b !in p;
    }
  }

  // Reading a definition (readOperationDefinition).

  /** `Integer.toString(max)`, or `*` for the unbounded -1. */
  function RenderMax(max: int): (r: string)
    ensures r == "*" <==> max == -1
    ensures max != -1 ==> ParseInt(r) == Some(max)
  {
    if max == -1 then "*"
    else
      IntToStringRoundTrip(max);
      IntToString(max)
  }

  /** The `in` component for an operation parameter: its name, type and
      minimum, and its maximum rendered as `*` for -1 or as a number. */
  function InParameter(p: OperationParameter): (c: ParameterComponent)
    ensures c.use == Some(In) && c.name == Some(p.name)
    ensures c.paramType == p.paramType && c.min == Some(p.min)
    ensures c.max.Some? && (c.max.value == "*" <==> p.max == -1)
    ensures p.max != -1 ==> ParseInt(c.max.value) == Some(p.max)
  {
    ParameterComponent(Some(In), p.paramType, Some(p.min), Some(RenderMax(p.max)), Some(p.name))
  }

  /** The `out` component for a return parameter, filled in the same way. */
  function OutParameter(p: ReturnParameter): (c: ParameterComponent)
    ensures c.use == Some(Out) && c.name == Some(p.name)
    ensures c.paramType == p.paramType && c.min == Some(p.min)
    ensures c.max.Some? && (c.max.value == "*" <==> p.max == -1)
    ensures p.max != -1 ==> ParseInt(c.max.value) == Some(p.max)
  {
    ParameterComponent(Some(Out), p.paramType, Some(p.min), Some(RenderMax(p.max)), Some(p.name))
  }

  /** The definition's parameter list, with the `inParams` and `outParams`
      name sets that go with it. */
  datatype ParamState = ParamState(params: seq<ParameterComponent>, inNames: set<string>, outNames: set<string>)

  /** Every component is the blank one or names a parameter of its use; no two
      components of one use share a name; the name sets cover the names used. */
  ghost predicate WellFormed(st: ParamState)
  {
    && (forall i | 0 <= i < |st.params| :: st.params[i].use.None? ==> st.params[i] == EmptyParameter)
    && (forall i | 0 <= i < |st.params| :: st.params[i].use.Some? ==> st.params[i].name.Some?)
    && (forall i | 0 <= i < |st.params| && st.params[i].use == Some(In) :: st.params[i].name.value in st.inNames)
    && (forall i | 0 <= i < |st.params| && st.params[i].use == Some(Out) :: st.params[i].name.value in st.outNames)
    && (forall i, j | 0 <= i < j < |st.params| && st.params[i].use.Some? && st.params[i].use == st.params[j].use ::
          st.params[i].name != st.params[j].name)
  }

  /** The operation parameters among a binding's parameters. */
  function OperationParamsOf(ps: seq<Parameter>): seq<OperationParameter>
  {
    if ps == [] then []
    else
      var last := ps[|ps| - 1];
      OperationParamsOf(ps[..|ps| - 1]) + (if last.OperationParam? then [last.operation] else [])
  }

  function ParamNames(ops: seq<OperationParameter>): set<string>
  {
    set p | p in ops :: p.name
  }

  function ReturnNames(rs: seq<ReturnParameter>): set<string>
  {
    set r | r in rs :: r.name
  }

  lemma ReturnNamesAppend(rs: seq<ReturnParameter>, q: ReturnParameter)
    ensures ReturnNames(rs + [q]) == ReturnNames(rs) + {q.name}
  {
    assert forall r | r in rs + [q] :: r in rs || r == q;
  }

  /** One parameter component per operation parameter; for a
      name already seen the component is added but left blank. */
  function AddInParams(st: ParamState, ps: seq<Parameter>): (r: ParamState)
    ensures |r.params| == |st.params| + |OperationParamsOf(ps)|
    ensures r.params[..|st.params|] == st.params
    ensures r.inNames == st.inNames + ParamNames(OperationParamsOf(ps))
    ensures r.outNames == st.outNames
  {
    if ps == [] then st
    else
      var p := ps[..|ps| - 1];
      var s := AddInParams(st, p);
      var ops := OperationParamsOf(p);
      match ps[|ps| - 1]
      case OperationParam(q) =>
        assert ParamNames(ops + [q]) == ParamNames(ops) + {q.name};
        var r := if q.name in s.inNames then s.(params := s.params + [EmptyParameter])
                 else ParamState(s.params + [InParameter(q)], s.inNames + {q.name}, s.outNames);
        assert r.params[..|st.params|] == s.params[..|st.params|];
        r
      case _ => s
  }

  /** One parameter component per return parameter whose name
      is new. */
  function AddOutParams(st: ParamState, rs: seq<ReturnParameter>): (r: ParamState)
    ensures |st.params| <= |r.params|
    ensures r.params[..|st.params|] == st.params
    ensures r.inNames == st.inNames
    ensures r.outNames == st.outNames + ReturnNames(rs)
  {
    if rs == [] then st
    else
      var p := rs[..|rs| - 1];
      var q := rs[|rs| - 1];
      var s := AddOutParams(st, p);
      ReturnNamesAppend(p, q);
      assert rs == p + [q];
      if q.name in s.outNames then s
      else
        var r := ParamState(s.params + [OutParameter(q)], s.inNames, s.outNames + {q.name});
        assert r.params[..|st.params|] == s.params[..|st.params|];
        r
  }

  /** A component is added for each return name not seen before, and only then. */
  lemma {:induction false} AddOutParamsCount(st: ParamState, rs: seq<ReturnParameter>)
    ensures |AddOutParams(st, rs).params| - |st.params| == |AddOutParams(st, rs).outNames| - |st.outNames|
  {
    if rs != [] {
      var p := rs[..|rs| - 1];
      AddOutParamsCount(st, p);
    }
  }

  /** Adding a binding's operation parameters keeps the list well formed. */
  lemma {:induction false} AddInParamsWellFormed(st: ParamState, ps: seq<Parameter>)
    requires WellFormed(st)
    ensures WellFormed(AddInParams(st, ps))
  {
    if ps != [] {
      var p := ps[..|ps| - 1];
      AddInParamsWellFormed(st, p);
      var s := AddInParams(st, p);
      match ps[|ps| - 1]
      case OperationParam(q) =>
        var c := if q.name in s.inNames then EmptyParameter else InParameter(q);
        WellFormedAppend(s, c, AddInParams(st, ps));
      case _ =>
    }
  }

  /** Adding a binding's return parameters keeps the list well formed. */
  lemma {:induction false} AddOutParamsWellFormed(st: ParamState, rs: seq<ReturnParameter>)
    requires WellFormed(st)
    ensures WellFormed(AddOutParams(st, rs))
  {
    if rs != [] {
      var p := rs[..|rs| - 1];
      AddOutParamsWellFormed(st, p);
      var s := AddOutParams(st, p);
      if rs[|rs| - 1].name !in s.outNames {
        WellFormedAppend(s, OutParameter(rs[|rs| - 1]), AddOutParams(st, rs));
      }
    }
  }

  /** The component the k-th operation parameter becomes when `seen` names
      were taken before it: blank when its name is taken or appeared earlier
      among `ops`, its `in` component otherwise. */
  function InComponent(seen: set<string>, ops: seq<OperationParameter>, k: nat): ParameterComponent
    requires k < |ops|
  {
    if ops[k].name in seen || ops[k].name in ParamNames(ops[..k]) then EmptyParameter else InParameter(ops[k])
  }

  /** The components for all of `ops`, one per parameter, in order. */
  function InComponents(seen: set<string>, ops: seq<OperationParameter>): (r: seq<ParameterComponent>)
    ensures |r| == |ops|
    ensures forall k :: 0 <= k < |ops| ==> r[k] == InComponent(seen, ops, k)
  {
    seq(|ops|, k requires 0 <= k < |ops| => InComponent(seen, ops, k))
  }

  /** The k-th operation parameter becomes the k-th appended component. */
  lemma {:induction false} AddInParamsAppends(st: ParamState, ps: seq<Parameter>)
    ensures AddInParams(st, ps).params == st.params + InComponents(st.inNames, OperationParamsOf(ps))
  {
    if ps != [] {
      var p := ps[..|ps| - 1];
      AddInParamsAppends(st, p);
      var ops := OperationParamsOf(p);
      match ps[|ps| - 1]
      case OperationParam(q) =>
        assert OperationParamsOf(ps) == ops + [q];
        InComponentsAppend(st.inNames, ops, q);
      case _ =>
        assert OperationParamsOf(ps) == ops;
    }
  }

  /** The components of `ops + [q]` are those of `ops` followed by the one for
      `q`, blank exactly when its name is taken or appears in `ops`. */
  lemma InComponentsAppend(seen: set<string>, ops: seq<OperationParameter>, q: OperationParameter)
    ensures InComponents(seen, ops + [q])
         == InComponents(seen, ops) + [if q.name in seen || q.name in ParamNames(ops) then EmptyParameter else InParameter(q)]
  {
    var ops' := ops + [q];
    assert ops'[..|ops|] == ops;
    forall k | 0 <= k < |ops|
      ensures InComponent(seen, ops', k) == InComponent(seen, ops, k)
    {
      assert ops'[..k] == ops[..k];
    }
  }

  function ReturnKey(r: ReturnParameter): string
  {
    r.name
  }

  /** The return parameters whose names are not in `seen`, in order. */
  function NewReturns(seen: set<string>, rs: seq<ReturnParameter>): (r: seq<ReturnParameter>)
    ensures forall x :: x in r <==> x in rs && x.name !in seen
  {
    if rs == [] then []
    else
      var q := rs[|rs| - 1];
      assert rs == rs[..|rs| - 1] + [q];
      NewReturns(seen, rs[..|rs| - 1]) + (if q.name in seen then [] else [q])
  }

  /** The `out` components of `rs`, in order. */
  function OutParameters(rs: seq<ReturnParameter>): (r: seq<ParameterComponent>)
    ensures |r| == |rs|
    ensures forall k :: 0 <= k < |rs| ==> r[k] == OutParameter(rs[k])
  {
    seq(|rs|, k requires 0 <= k < |rs| => OutParameter(rs[k]))
  }

  lemma NewReturnsKeys(seen: set<string>, rs: seq<ReturnParameter>)
    ensures KeySet(ReturnKey, NewReturns(seen, rs)) == ReturnNames(rs) - seen
  {
    forall n | n in ReturnNames(rs) - seen
      ensures n in KeySet(ReturnKey, NewReturns(seen, rs))
    {
      var x :| x in rs && x.name == n;
      assert x in NewReturns(seen, rs) && ReturnKey(x) == n;
    }
  }

  /** The return parameters add, in order, the `out` component of the first
      return parameter of each name not taken before. */
  lemma {:induction false} AddOutParamsAppends(st: ParamState, rs: seq<ReturnParameter>)
    ensures AddOutParams(st, rs).params
         == st.params + OutParameters(DistinctBy(ReturnKey, NewReturns(st.outNames, rs)))
  {
    if rs != [] {
      var p := rs[..|rs| - 1];
      var q := rs[|rs| - 1];
      AddOutParamsAppends(st, p);
      NewDistinctStep(st.outNames, rs);
      if !(q.name in st.outNames || q.name in ReturnNames(p)) {
        OutParametersAppend(DistinctBy(ReturnKey, NewReturns(st.outNames, p)), q);
      }
    }
  }

  /** A return parameter extends the new, distinct ones when its name is
      neither taken nor seen before. */
  lemma NewDistinctStep(seen: set<string>, rs: seq<ReturnParameter>)
    requires rs != []
    ensures var p := rs[..|rs| - 1];
            var q := rs[|rs| - 1];
            DistinctBy(ReturnKey, NewReturns(seen, rs))
            == DistinctBy(ReturnKey, NewReturns(seen, p)) + (if q.name in seen || q.name in ReturnNames(p) then [] else [q])
  {
    var p := rs[..|rs| - 1];
    var q := rs[|rs| - 1];
    var np := NewReturns(seen, p);
    if q.name in seen {
      assert NewReturns(seen, rs) == np;
    } else {
      assert NewReturns(seen, rs) == np + [q];
      DistinctByAppend(ReturnKey, np, q);
      var dp := DistinctBy(ReturnKey, np);
      assert KeySet(ReturnKey, dp) == KeySet(ReturnKey, np);
      NewReturnsKeys(seen, p);
      assert ReturnKey(q) in KeySet(ReturnKey, dp) <==> q.name in ReturnNames(p);
    }
  }

  lemma OutParametersAppend(rs: seq<ReturnParameter>, q: ReturnParameter)
    ensures OutParameters(rs + [q]) == OutParameters(rs) + [OutParameter(q)]
  {
  }

  /** Every name in the state's name sets has a component of its use. */
  ghost predicate NamesListed(st: ParamState)
  {
    && (forall n | n in st.inNames ::
          exists i | 0 <= i < |st.params| :: st.params[i].use == Some(In) && st.params[i].name == Some(n))
    && (forall n | n in st.outNames ::
          exists i | 0 <= i < |st.params| :: st.params[i].use == Some(Out) && st.params[i].name == Some(n))
  }

  lemma ListedAppend(st: ParamState, c: ParameterComponent, st': ParamState)
    requires NamesListed(st)
    requires st'.params == st.params + [c]
    requires forall n | n in st'.inNames :: n in st.inNames || (c.use == Some(In) && c.name == Some(n))
    requires forall n | n in st'.outNames :: n in st.outNames || (c.use == Some(Out) && c.name == Some(n))
    ensures NamesListed(st')
  {
    var ps := st'.params;
    forall n | n in st'.inNames
      ensures exists i | 0 <= i < |ps| :: ps[i].use == Some(In) && ps[i].name == Some(n)
    {
      if n in st.inNames {
        var i :| 0 <= i < |st.params| && st.params[i].use == Some(In) && st.params[i].name == Some(n);
        assert ps[i] == st.params[i];
      } else {
        assert ps[|ps| - 1] == c;
      }
    }
    forall n | n in st'.outNames
      ensures exists i | 0 <= i < |ps| :: ps[i].use == Some(Out) && ps[i].name == Some(n)
    {
      if n in st.outNames {
        var i :| 0 <= i < |st.params| && st.params[i].use == Some(Out) && st.params[i].name == Some(n);
        assert ps[i] == st.params[i];
      } else {
        assert ps[|ps| - 1] == c;
      }
    }
  }

  /** Operation parameters give each new name an `in` component. */
  lemma {:induction false} AddInParamsListed(st: ParamState, ps: seq<Parameter>)
    requires NamesListed(st)
    ensures NamesListed(AddInParams(st, ps))
  {
    if ps != [] {
      var p := ps[..|ps| - 1];
      AddInParamsListed(st, p);
      var s := AddInParams(st, p);
      match ps[|ps| - 1]
      case OperationParam(q) =>
        var c := if q.name in s.inNames then EmptyParameter else InParameter(q);
        ListedAppend(s, c, AddInParams(st, ps));
      case _ =>
    }
  }

  /** Return parameters give each new name an `out` component. */
  lemma {:induction false} AddOutParamsListed(st: ParamState, rs: seq<ReturnParameter>)
    requires NamesListed(st)
    ensures NamesListed(AddOutParams(st, rs))
  {
    if rs != [] {
      var p := rs[..|rs| - 1];
      AddOutParamsListed(st, p);
      var s := AddOutParams(st, p);
      var q := rs[|rs| - 1];
      if q.name !in s.outNames {
        ListedAppend(s, OutParameter(q), AddOutParams(st, rs));
      }
    }
  }

  /** Appending the blank component, or one whose name is new for its use,
      keeps the state well formed. */
  lemma WellFormedAppend(st: ParamState, c: ParameterComponent, st': ParamState)
    requires WellFormed(st)
    requires st'.params == st.params + [c]
    requires st.inNames <= st'.inNames && st.outNames <= st'.outNames
    requires c.use.None? ==> c == EmptyParameter
    requires c.use.Some? ==> c.name.Some?
    requires c.use == Some(In) ==> c.name.value in st'.inNames && c.name.value !in st.inNames
    requires c.use == Some(Out) ==> c.name.value in st'.outNames && c.name.value !in st.outNames
    ensures WellFormed(st')
  {
    var ps := st'.params;
    forall i, j | 0 <= i < j < |ps| && ps[i].use.Some? && ps[i].use == ps[j].use
      ensures ps[i].name != ps[j].name
    {
      if j == |ps| - 1 {
        assert ps[j] == c;
        var q := st.params[i];
        assert ps[i] == q;
        assert q.use == c.use;
        if c.use == Some(In) {
          assert q.name.value in st.inNames;
        } else {
          assert c.use.Some?;
          assert c.use.value.In? || c.use.value.Out?;
          assert c.use == Some(Out);
          assert q.name.value in st.outNames;
        }
      } else {
        assert ps[i] == st.params[i] && ps[j] == st.params[j];
      }
    }
    forall i | 0 <= i < |ps|
      ensures ps[i].use.None? ==> ps[i] == EmptyParameter
      ensures ps[i].use.Some? ==> ps[i].name.Some?
      ensures ps[i].use == Some(In) ==> ps[i].name.value in st'.inNames
      ensures ps[i].use == Some(Out) ==> ps[i].name.value in st'.outNames
    {
      if i < |st.params| {
        assert ps[i] == st.params[i];
      }
    }
  }

  /** The parameters of the definition merged from `bs`, binding by binding. */
  function DefinitionParams(bs: seq<OperationMethodBinding>): (r: ParamState)
    ensures r.inNames == AllParamNames(bs)
    ensures r.outNames == AllReturnNames(bs)
  {
    if bs == [] then ParamState([], {}, {})
    else
      var b := bs[|bs| - 1];
      AddOutParams(AddInParams(DefinitionParams(bs[..|bs| - 1]), b.kind.parameters), b.kind.returnParams)
  }

  /** The merged parameter list is well formed. */
  lemma {:induction false} DefinitionParamsWellFormed(bs: seq<OperationMethodBinding>)
    ensures WellFormed(DefinitionParams(bs))
  {
    if bs != [] {
      var b := bs[|bs| - 1];
      var prev := DefinitionParams(bs[..|bs| - 1]);
      DefinitionParamsWellFormed(bs[..|bs| - 1]);
      AddInParamsWellFormed(prev, b.kind.parameters);
      AddOutParamsWellFormed(AddInParams(prev, b.kind.parameters), b.kind.returnParams);
    }
  }

  /** Every declared parameter name and return name has a component of its use. */
  lemma {:induction false} DefinitionParamsListed(bs: seq<OperationMethodBinding>)
    ensures NamesListed(DefinitionParams(bs))
  {
    if bs != [] {
      var b := bs[|bs| - 1];
      var prev := DefinitionParams(bs[..|bs| - 1]);
      DefinitionParamsListed(bs[..|bs| - 1]);
      AddInParamsListed(prev, b.kind.parameters);
      AddOutParamsListed(AddInParams(prev, b.kind.parameters), b.kind.returnParams);
    }
  }

  /** A binding adds to the list merged so far, in order, the component of
      each of its operation parameters and then the `out` component of each
      return parameter whose name is new. */
  lemma DefinitionParamsStep(bs: seq<OperationMethodBinding>)
    requires bs != []
    ensures var done := bs[..|bs| - 1];
            var b := bs[|bs| - 1];
            DefinitionParams(bs).params
            == DefinitionParams(done).params
               + InComponents(AllParamNames(done), OperationParamsOf(b.kind.parameters))
               + OutParameters(DistinctBy(ReturnKey, NewReturns(AllReturnNames(done), b.kind.returnParams)))
  {
    var b := bs[|bs| - 1];
    var prev := DefinitionParams(bs[..|bs| - 1]);
    AddInParamsAppends(prev, b.kind.parameters);
    AddOutParamsAppends(AddInParams(prev, b.kind.parameters), b.kind.returnParams);
  }

  /** The names of the operation parameters the bindings declare. */
  function AllParamNames(bs: seq<OperationMethodBinding>): set<string>
  {
    if bs == [] then {}
    else AllParamNames(bs[..|bs| - 1]) + ParamNames(OperationParamsOf(bs[|bs| - 1].kind.parameters))
  }

  /** The names of the return parameters the bindings declare. */
  function AllReturnNames(bs: seq<OperationMethodBinding>): set<string>
  {
    if bs == [] then {}
    else AllReturnNames(bs[..|bs| - 1]) + ReturnNames(bs[|bs| - 1].kind.returnParams)
  }

  /** The number of operation parameters the bindings declare. */
  function OperationParamCount(bs: seq<OperationMethodBinding>): nat
  {
    if bs == [] then 0
    else OperationParamCount(bs[..|bs| - 1]) + |OperationParamsOf(bs[|bs| - 1].kind.parameters)|
  }

  /** One component per operation parameter, plus one per distinct return name. */
  lemma {:induction false} DefinitionParamCount(bs: seq<OperationMethodBinding>)
    ensures |DefinitionParams(bs).params| == OperationParamCount(bs) + |DefinitionParams(bs).outNames|
  {
    if bs != [] {
      var b := bs[|bs| - 1];
      DefinitionParamCount(bs[..|bs| - 1]);
      AddOutParamsCount(AddInParams(DefinitionParams(bs[..|bs| - 1]), b.kind.parameters), b.kind.returnParams);
    }
  }

  /** The last non-blank description, None if every one is blank. */
  function LastDescription(bs: seq<OperationMethodBinding>): Option<string>
  {
    if bs == [] then None
    else
      var b := bs[|bs| - 1];
      if !IsBlank(b.kind.description) then b.kind.description
      else LastDescription(bs[..|bs| - 1])
  }

  /** The description kept is the last non-blank one: no description is kept
      exactly when all are blank, and a kept one is followed only by blank ones. */
  lemma {:induction false} LastDescriptionIsLast(bs: seq<OperationMethodBinding>)
    ensures LastDescription(bs).None? <==> forall i :: 0 <= i < |bs| ==> IsBlank(bs[i].kind.description)
    ensures LastDescription(bs).Some? ==>
              exists i :: 0 <= i < |bs| && bs[i].kind.description == LastDescription(bs) && !IsBlank(bs[i].kind.description)
                          && forall j :: i < j < |bs| ==> IsBlank(bs[j].kind.description)
  {
    if bs != [] {
      var p := bs[..|bs| - 1];
      var last := |bs| - 1;
      if IsBlank(bs[last].kind.description) {
        LastDescriptionIsLast(p);
        if LastDescription(p).Some? {
          var i :| 0 <= i < |p| && p[i].kind.description == LastDescription(p) && !IsBlank(p[i].kind.description)
                   && forall j :: i < j < |p| ==> IsBlank(p[j].kind.description);
          forall j | i < j < |bs|
            ensures IsBlank(bs[j].kind.description)
          {
            if j < last {
              assert bs[j] == p[j];
            }
          }
          assert bs[i] == p[i];
        } else {
          forall i | 0 <= i < |bs|
            ensures IsBlank(bs[i].kind.description)
          {
            if i < last {
              assert bs[i] == p[i];
            }
          }
        }
      }
    }
  }

  /** The non-blank resource names of the bindings, in order, repeats kept. */
  function ResourceTypes(bs: seq<OperationMethodBinding>): (r: seq<string>)
    ensures forall t :: t in r <==> exists i :: 0 <= i < |bs| && bs[i].resourceName == Some(t) && !IsBlank(Some(t))
  {
    if bs == [] then []
    else
      var b := bs[|bs| - 1];
      var p := bs[..|bs| - 1];
      assert forall i :: 0 <= i < |p| ==> p[i] == bs[i];
      ResourceTypes(p) + (if !IsBlank(b.resourceName) then [b.resourceName.value] else [])
  }

  /** `idx` picks out, in increasing order, exactly the bindings with a
      non-blank resource name, and `r` lists those names in that order. */
  ghost predicate ListsNonBlank(bs: seq<OperationMethodBinding>, r: seq<string>, idx: seq<nat>)
  {
    && |idx| == |r|
    && (forall k | 0 <= k < |idx| ::
          idx[k] < |bs| && !IsBlank(bs[idx[k]].resourceName) && r[k] == bs[idx[k]].resourceName.value)
    && (forall k, l | 0 <= k < l < |idx| :: idx[k] < idx[l])
    && (forall i | 0 <= i < |bs| && !IsBlank(bs[i].resourceName) :: i in idx)
  }

  /** The positions of the bindings that carry a resource name, in order. */
  function NonBlankIndices(bs: seq<OperationMethodBinding>): seq<nat>
  {
    if bs == [] then []
    else NonBlankIndices(bs[..|bs| - 1]) + (if !IsBlank(bs[|bs| - 1].resourceName) then [|bs| - 1] else [])
  }

  /** The resource types keep the bindings' order and one entry per binding
      with a resource name, so repeats are kept. */
  lemma {:induction false} ResourceTypesInOrder(bs: seq<OperationMethodBinding>)
    ensures ListsNonBlank(bs, ResourceTypes(bs), NonBlankIndices(bs))
  {
    if bs != [] {
      var p := bs[..|bs| - 1];
      ResourceTypesInOrder(p);
      ListsNonBlankAppend(bs, ResourceTypes(p), NonBlankIndices(p));
    }
  }

  lemma ListsNonBlankAppend(bs: seq<OperationMethodBinding>, r: seq<string>, idx: seq<nat>)
    requires bs != [] && ListsNonBlank(bs[..|bs| - 1], r, idx)
    ensures var b := bs[|bs| - 1];
            !IsBlank(b.resourceName) ==> ListsNonBlank(bs, r + [b.resourceName.value], idx + [|bs| - 1])
    ensures IsBlank(bs[|bs| - 1].resourceName) ==> ListsNonBlank(bs, r, idx)
  {
    var p := bs[..|bs| - 1];
    var b := bs[|bs| - 1];
    if !IsBlank(b.resourceName) {
      var idx': seq<nat> := idx + [|p|];
      var r' := r + [b.resourceName.value];
      forall k | 0 <= k < |idx'|
        ensures idx'[k] < |bs| && !IsBlank(bs[idx'[k]].resourceName) && r'[k] == bs[idx'[k]].resourceName.value
      {
        if k < |idx| {
          assert idx'[k] == idx[k] && r'[k] == r[k] && bs[idx[k]] == p[idx[k]];
        }
      }
      forall i | 0 <= i < |bs| && !IsBlank(bs[i].resourceName)
        ensures i in idx'
      {
        if i < |p| {
          assert p[i] == bs[i];
        } else {
          assert idx'[|idx|] == i;
        }
      }
    } else {
      forall k | 0 <= k < |idx|
        ensures bs[idx[k]] == p[idx[k]]
      {
      }
      forall i | 0 <= i < |bs| && !IsBlank(bs[i].resourceName)
        ensures i in idx
      {
        assert p[i] == bs[i];
      }
    }
  }

  function AllIdempotent(bs: seq<OperationMethodBinding>): (r: bool)
    ensures r <==> forall i :: 0 <= i < |bs| ==> bs[i].kind.idempotent
  {
    if bs == [] then true
    else
      var p := bs[..|bs| - 1];
      assert forall i :: 0 <= i < |p| ==> p[i] == bs[i];
      AllIdempotent(p) && bs[|bs| - 1].kind.idempotent
  }

  function AnyInstanceLevel(bs: seq<OperationMethodBinding>): (r: bool)
    ensures r <==> exists i :: 0 <= i < |bs| && bs[i].kind.instanceLevel
  {
    if bs == [] then false
    else
      var p := bs[..|bs| - 1];
      assert forall i :: 0 <= i < |p| ==> p[i] == bs[i];
      AnyInstanceLevel(p) || bs[|bs| - 1].kind.instanceLevel
  }

  function AnyServerLevel(bs: seq<OperationMethodBinding>): (r: bool)
    ensures r <==> exists i :: 0 <= i < |bs| && bs[i].kind.serverLevel
  {
    if bs == [] then false
    else
      var p := bs[..|bs| - 1];
      assert forall i :: 0 <= i < |p| ==> p[i] == bs[i];
      AnyServerLevel(p) || bs[|bs| - 1].kind.serverLevel
  }

  lemma MergeAppend(done: seq<OperationMethodBinding>, b: OperationMethodBinding)
    ensures AllIdempotent(done + [b]) == (AllIdempotent(done) && b.kind.idempotent)
    ensures AnyInstanceLevel(done + [b]) == (AnyInstanceLevel(done) || b.kind.instanceLevel)
    ensures AnyServerLevel(done + [b]) == (AnyServerLevel(done) || b.kind.serverLevel)
    ensures LastDescription(done + [b])
         == if !IsBlank(b.kind.description) then b.kind.description else LastDescription(done)
    ensures ResourceTypes(done + [b])
         == ResourceTypes(done) + (if !IsBlank(b.resourceName) then [b.resourceName.value] else [])
  {
    assert (done + [b])[..|done|] == done;
  }

  lemma DefinitionParamsAppend(done: seq<OperationMethodBinding>, b: OperationMethodBinding)
    ensures DefinitionParams(done + [b])
         == AddOutParams(AddInParams(DefinitionParams(done), b.kind.parameters), b.kind.returnParams)
  {
    assert (done + [b])[..|done|] == done;
  }

  /** The definition merged from the bindings sharing one name. */
  ghost predicate DefinitionDescribes(op: OperationDefinition, bs: seq<OperationMethodBinding>)
    requires bs != []
  {
    && op.status == Active
    && (op.idempotent <==> forall i :: 0 <= i < |bs| ==> bs[i].kind.idempotent)
    && (op.instance <==> exists i :: 0 <= i < |bs| && bs[i].kind.instanceLevel)
    && (op.system <==> exists i :: 0 <= i < |bs| && bs[i].kind.serverLevel)
    && op.code == bs[|bs| - 1].kind.name
    && op.description == LastDescription(bs)
    && op.types == ResourceTypes(bs)
    && op.parameters == DefinitionParams(bs).params
  }

  /** The merged parameter list: an `in` component for every operation
      parameter name and an `out` component for every return name, and no
      others; no name twice within a use; and one component per operation
      parameter plus one per distinct return name. Which component each
      parameter becomes, binding by binding, is `DefinitionParamsStep`. */
  lemma DefinitionParameters(op: OperationDefinition, bs: seq<OperationMethodBinding>)
    requires bs != [] && DefinitionDescribes(op, bs)
    ensures forall i, j :: (0 <= i < j < |op.parameters| && op.parameters[i].use.Some?
                            && op.parameters[i].use == op.parameters[j].use) ==> op.parameters[i].name != op.parameters[j].name
    ensures forall i :: 0 <= i < |op.parameters| && op.parameters[i].use.None? ==> op.parameters[i] == EmptyParameter
    ensures forall i :: 0 <= i < |op.parameters| && op.parameters[i].use == Some(In) ==>
              op.parameters[i].name.Some? && op.parameters[i].name.value in AllParamNames(bs)
    ensures forall i :: 0 <= i < |op.parameters| && op.parameters[i].use == Some(Out) ==>
              op.parameters[i].name.Some? && op.parameters[i].name.value in AllReturnNames(bs)
    ensures |op.parameters| == OperationParamCount(bs) + |AllReturnNames(bs)|
    ensures forall n | n in AllParamNames(bs) ::
              exists i | 0 <= i < |op.parameters| :: op.parameters[i].use == Some(In) && op.parameters[i].name == Some(n)
    ensures forall n | n in AllReturnNames(bs) ::
              exists i | 0 <= i < |op.parameters| :: op.parameters[i].use == Some(Out) && op.parameters[i].name == Some(n)
  {
    assert op.parameters == DefinitionParams(bs).params;
    DefinitionParamsWellFormed(bs);
    DefinitionParamCount(bs);
    DefinitionParamsListed(bs);
  }

  /** The loop over one binding's parameters. */
  method AddInParameters(params: seq<ParameterComponent>, inParams: set<string>, ps: seq<Parameter>, ghost outParams: set<string>)
    returns (params': seq<ParameterComponent>, inParams': set<string>)
    ensures ParamState(params', inParams', outParams) == AddInParams(ParamState(params, inParams, outParams), ps)
  {
    params', inParams' := params, inParams;
    for k := 0 to |ps|
      invariant ParamState(params', inParams', outParams) == AddInParams(ParamState(params, inParams, outParams), ps[..k])
    {
      SnocSlice(ps, k);
      if ps[k].OperationParam? {
        var nextParam := ps[k].operation;
        if nextParam.name in inParams' {
          params' := params' + [EmptyParameter];
          continue;
        }
        inParams' := inParams' + {nextParam.name};
        params' := params' + [InParameter(nextParam)];
      }
    }
    assert ps[..|ps|] == ps;
  }

  /** The loop over one binding's return parameters. */
  method AddOutParameters(params: seq<ParameterComponent>, outParams: set<string>, rs: seq<ReturnParameter>, ghost inParams: set<string>)
    returns (params': seq<ParameterComponent>, outParams': set<string>)
    ensures ParamState(params', inParams, outParams') == AddOutParams(ParamState(params, inParams, outParams), rs)
  {
    params', outParams' := params, outParams;
    for k := 0 to |rs|
      invariant ParamState(params', inParams, outParams') == AddOutParams(ParamState(params, inParams, outParams), rs[..k])
    {
      SnocSlice(rs, k);
      var nextParam := rs[k];
      if nextParam.name in outParams' {
        continue;
      }
      outParams' := outParams' + {nextParam.name};
      params' := params' + [OutParameter(nextParam)];
    }
    assert rs[..|rs|] == rs;
  }

  /** The definition being built and the two name sets, after the bindings `done`. */
  ghost predicate MergeProgress(op: OperationDefinition, inParams: set<string>, outParams: set<string>,
                                done: seq<OperationMethodBinding>)
  {
    FieldsProgress(op, done) && ParamsProgress(op, inParams, outParams, done)
  }

  ghost predicate FieldsProgress(op: OperationDefinition, done: seq<OperationMethodBinding>)
  {
    && op.status == Active
    && op.idempotent == AllIdempotent(done)
    && op.description == LastDescription(done)
    && (done != [] ==> op.code == done[|done| - 1].kind.name)
    && op.instance == AnyInstanceLevel(done)
    && op.system == AnyServerLevel(done)
    && op.types == ResourceTypes(done)
  }

  ghost predicate ParamsProgress(op: OperationDefinition, inParams: set<string>, outParams: set<string>,
                                 done: seq<OperationMethodBinding>)
  {
    ParamState(op.parameters, inParams, outParams) == DefinitionParams(done)
  }

  /** What one binding adds to the definition being built. */
  method MergeBinding(op: OperationDefinition, inParams: set<string>, outParams: set<string>,
                      sharedDescription: OperationMethodBinding, ghost done: seq<OperationMethodBinding>)
    returns (op': OperationDefinition, inParams': set<string>, outParams': set<string>)
    requires MergeProgress(op, inParams, outParams, done)
    ensures MergeProgress(op', inParams', outParams', done + [sharedDescription])
  {
    op' := MergeFields(op, sharedDescription, done);
    op', inParams', outParams' := MergeParams(op', inParams, outParams, sharedDescription, done);
  }

  /** Description, idempotence, code, levels and types. */
  method MergeFields(op: OperationDefinition, sharedDescription: OperationMethodBinding, ghost done: seq<OperationMethodBinding>)
    returns (op': OperationDefinition)
    requires FieldsProgress(op, done)
    ensures FieldsProgress(op', done + [sharedDescription])
    ensures op'.parameters == op.parameters
  {
    MergeAppend(done, sharedDescription);
    var b := sharedDescription.kind;
    op' := op.(
      description := if !IsBlank(b.description) then b.description else op.description,
      idempotent := if !b.idempotent then b.idempotent else op.idempotent,
      code := b.name,
      instance := if b.instanceLevel then b.instanceLevel else op.instance,
      system := if b.serverLevel then b.serverLevel else op.system,
      types := if !IsBlank(sharedDescription.resourceName) then op.types + [sharedDescription.resourceName.value] else op.types);
  }

  /** The binding's parameters and return parameters. */
  method MergeParams(op: OperationDefinition, inParams: set<string>, outParams: set<string>,
                     sharedDescription: OperationMethodBinding, ghost done: seq<OperationMethodBinding>)
    returns (op': OperationDefinition, inParams': set<string>, outParams': set<string>)
    requires ParamsProgress(op, inParams, outParams, done)
    ensures ParamsProgress(op', inParams', outParams', done + [sharedDescription])
    ensures op' == op.(parameters := op'.parameters)
  {
    DefinitionParamsAppend(done, sharedDescription);
    var params;
    params, inParams' := AddInParameters(op.parameters, inParams, sharedDescription.kind.parameters, outParams);
    params, outParams' := AddOutParameters(params, outParams, sharedDescription.kind.returnParams, inParams');
    op' := op.(parameters := params);
  }

  lemma ProgressDescribes(op: OperationDefinition, inParams: set<string>, outParams: set<string>,
                          bs: seq<OperationMethodBinding>)
    requires bs != [] && MergeProgress(op, inParams, outParams, bs)
    ensures DefinitionDescribes(op, bs)
  {
  }

  /** Once the bindings are found: merges them into one
      OperationDefinition. */
  method MergeDefinition(sharedDescriptions: seq<OperationMethodBinding>) returns (op: OperationDefinition)
    requires sharedDescriptions != []
    ensures DefinitionDescribes(op, sharedDescriptions)
  {
    op := OperationDefinition(Active, true, None, "", false, false, [], []);
    var inParams: set<string> := {};
    var outParams: set<string> := {};
    ghost var done: seq<OperationMethodBinding> := [];
    for i := 0 to |sharedDescriptions|
      invariant done == sharedDescriptions[..i]
      invariant MergeProgress(op, inParams, outParams, done)
    {
      op, inParams, outParams := MergeBinding(op, inParams, outParams, sharedDescriptions[i], done);
      SnocSlice(sharedDescriptions, i);
      done := done + [sharedDescriptions[i]];
    }
    assert done == sharedDescriptions;
    ProgressDescribes(op, inParams, outParams, done);
  }

  /** `IdType`: the id part, None when it is null. */
  datatype IdType = IdType(idPart: Option<string>)

  /** A read either finds the definition or fails with ResourceNotFoundException. */
  datatype ReadResult = Found(definition: OperationDefinition) | ResourceNotFound

  /** The list a read of `id` looks up, or None when the read fails first. */
  function SharedDescriptions(id: Option<IdType>, toBindings: map<string, seq<OperationMethodBinding>>)
    : (r: Option<seq<OperationMethodBinding>>)
    ensures r.Some? <==> id.Some? && !IsBlank(id.value.idPart) && id.value.idPart.value in toBindings
                         && toBindings[id.value.idPart.value] != []
    ensures r.Some? ==> r.value == toBindings[id.value.idPart.value]
  {
    if id.None? || IsBlank(id.value.idPart) then None
    else if id.value.idPart.value !in toBindings || toBindings[id.value.idPart.value] == [] then None
    else Some(toBindings[id.value.idPart.value])
  }
}
