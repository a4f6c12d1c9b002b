/** The server's registered method bindings, reduced to the data the
    conformance provider reads, and their grouping by resource name. */
module Bindings {
  import opened Util
  import opened Collections

  datatype SearchParameter = SearchParameter(
    name: string,
    required: bool,
    description: Option<string>,
    paramType: Option<string>)

  datatype OperationParameter = OperationParameter(
    name: string,
    paramType: Option<string>,
    min: int,
    max: int)

  /** A method parameter; only search and operation parameters are looked at. */
  datatype Parameter =
    | SearchParam(search: SearchParameter)
    | OperationParam(operation: OperationParameter)
    | OtherParam

  /** An operation's declared return parameter (`ReturnType`). */
  datatype ReturnParameter = ReturnParameter(
    name: string,
    paramType: Option<string>,
    min: int,
    max: int)

  /** Operation names carry a leading `$`, so they are never empty. */
  type OperationName = s: string | |s| > 0 witness "$"

  /** The subclasses of BaseMethodBinding the provider distinguishes. */
  datatype BindingKind =
    | SearchBinding(includes: set<string>, parameters: seq<Parameter>)
    | OperationBinding(
        name: OperationName,
        description: Option<string>,
        idempotent: bool,
        instanceLevel: bool,
        serverLevel: bool,
        parameters: seq<Parameter>,
        returnParams: seq<ReturnParameter>)
    | OtherBinding

  /** A method binding. `identity` stands for the object's identity, so two
      distinct binding objects never compare equal; `restOperation` is the
      code of the binding's rest operation type, None when the type or its
      code is null. */
  datatype MethodBinding = MethodBinding(
    identity: nat,
    resourceName: Option<string>,
    restOperation: Option<string>,
    supportsConditional: bool,
    kind: BindingKind)

  datatype ResourceBinding = ResourceBinding(resourceName: string, methodBindings: seq<MethodBinding>)

  /** What the server configuration exposes to the provider. */
  datatype ServerConfiguration = ServerConfiguration(
    resourceBindings: seq<ResourceBinding>,
    serverBindings: seq<MethodBinding>)

  /** The bindings of the resource bindings named `key`, in registration order. */
  function ResourceBindingsNamed(rbs: seq<ResourceBinding>, key: string): seq<MethodBinding>
  {
    if rbs == [] then []
    else
      var last := rbs[|rbs| - 1];
      ResourceBindingsNamed(rbs[..|rbs| - 1], key) + (if last.resourceName == key then last.methodBindings else [])
  }

  /** Everything registered under `key`: resource bindings by name, then the
      server bindings, which go under the empty name. */
  function BindingsFor(config: ServerConfiguration, key: string): seq<MethodBinding>
  {
    ResourceBindingsNamed(config.resourceBindings, key) + (if key == "" then config.serverBindings else [])
  }

  lemma {:induction false} ResourceBindingsNamedFrom(rbs: seq<ResourceBinding>, key: string)
    requires ResourceBindingsNamed(rbs, key) != []
    ensures exists i :: 0 <= i < |rbs| && rbs[i].resourceName == key
  {
    var last := rbs[|rbs| - 1];
    if last.resourceName != key {
      ResourceBindingsNamedFrom(rbs[..|rbs| - 1], key);
      var i :| 0 <= i < |rbs| - 1 && rbs[..|rbs| - 1][i].resourceName == key;
      assert rbs[i].resourceName == key;
    }
  }

  function Names(config: ServerConfiguration): set<string>
  {
    (set rb | rb in config.resourceBindings :: rb.resourceName) + {""}
  }

  /** The grouping the provider builds: a key for each name with at least one
      binding, holding that name's bindings in registration order. */
  ghost function Grouping(config: ServerConfiguration): (m: map<string, seq<MethodBinding>>)
    ensures forall k :: k in m <==> BindingsFor(config, k) != []
    ensures forall k :: k in m ==> m[k] == BindingsFor(config, k)
  {
    forall k | BindingsFor(config, k) != [] ensures k in Names(config) {
      if k != "" {
        ResourceBindingsNamedFrom(config.resourceBindings, k);
      }
    }
    map k | k in Names(config) && BindingsFor(config, k) != [] :: BindingsFor(config, k)
  }

  /** `m` groups exactly the bindings of `rbs`. */
  ghost predicate GroupsBindings(m: map<string, seq<MethodBinding>>, rbs: seq<ResourceBinding>)
  {
    forall k :: (k in m <==> ResourceBindingsNamed(rbs, k) != [])
             && (k in m ==> m[k] == ResourceBindingsNamed(rbs, k))
  }

  /** The list under `name` extended by `mbs`, none before the first binding. */
  function Extended(m: map<string, seq<MethodBinding>>, name: string, mbs: seq<MethodBinding>): map<string, seq<MethodBinding>>
  {
    if mbs == [] then m else m[name := (if name in m then m[name] else []) + mbs]
  }

  /** Appends `mbs` to the list under `name`, creating it on the first binding. */
  method AddBindings(m: map<string, seq<MethodBinding>>, name: string, mbs: seq<MethodBinding>)
    returns (r: map<string, seq<MethodBinding>>)
    ensures r.Keys == if mbs == [] then m.Keys else m.Keys + {name}
    ensures forall k :: k in r ==> r[k] == (if k in m then m[k] else []) + (if k == name then mbs else [])
    ensures r == Extended(m, name, mbs)
  {
    r := m;
    ghost var prev := if name in m then m[name] else [];
    for j := 0 to |mbs|
      invariant r == Extended(m, name, mbs[..j])
    {
      ghost var before := r;
      if j == 0 {
        assert mbs[..j] == [];
      } else {
        assert |mbs[..j]| == j;
      }
      if name !in r {
        r := r[name := []];
      }
      assert mbs[..j + 1] == mbs[..j] + [mbs[j]];
      r := r[name := r[name] + [mbs[j]]];
      assert r[name] == prev + mbs[..j + 1];
      forall k | k != name
        ensures (k in r <==> k in m) && (k in r ==> r[k] == m[k])
      {
        assert k in before <==> k in m;
      }
      MapsEqual(r, m[name := prev + mbs[..j + 1]]);
    }
    assert mbs[..|mbs|] == mbs;
  }

  lemma NamedStep(rbs: seq<ResourceBinding>, i: nat, k: string)
    requires i < |rbs|
    ensures ResourceBindingsNamed(rbs[..i + 1], k)
         == ResourceBindingsNamed(rbs[..i], k) + (if rbs[i].resourceName == k then rbs[i].methodBindings else [])
  {
    assert rbs[..i + 1][..i] == rbs[..i];
  }

  lemma GroupsResourceStep(m: map<string, seq<MethodBinding>>, r: map<string, seq<MethodBinding>>, rbs: seq<ResourceBinding>, i: nat)
    requires i < |rbs| && GroupsBindings(m, rbs[..i])
    requires r == Extended(m, rbs[i].resourceName, rbs[i].methodBindings)
    ensures GroupsBindings(r, rbs[..i + 1])
  {
    forall k
      ensures (k in r <==> ResourceBindingsNamed(rbs[..i + 1], k) != [])
              && (k in r ==> r[k] == ResourceBindingsNamed(rbs[..i + 1], k))
    {
      NamedStep(rbs, i, k);
      assert k in m <==> ResourceBindingsNamed(rbs[..i], k) != [];
    }
  }

  lemma GroupsServerStep(m: map<string, seq<MethodBinding>>, r: map<string, seq<MethodBinding>>, config: ServerConfiguration)
    requires GroupsBindings(m, config.resourceBindings)
    requires r.Keys == if config.serverBindings == [] then m.Keys else m.Keys + {""}
    requires forall k :: k in r ==> r[k] == (if k in m then m[k] else []) + (if k == "" then config.serverBindings else [])
    ensures r == Grouping(config)
  {
    var g := Grouping(config);
    forall k
      ensures (k in r <==> k in g) && (k in r ==> r[k] == g[k])
    {
      var rb := ResourceBindingsNamed(config.resourceBindings, k);
      assert k in m <==> rb != [];
      assert k in m ==> m[k] == rb;
      assert BindingsFor(config, k) == rb + (if k == "" then config.serverBindings else []);
    }
    MapsEqual(r, g);
  }

  lemma MapsEqual<K, V>(a: map<K, V>, b: map<K, V>)
    requires forall k :: (k in a <==> k in b) && (k in a ==> a[k] == b[k])
    ensures a == b
  {
  }

  /** `collectMethodBindings`: fills a TreeMap from resource name to bindings. */
  method CollectMethodBindings(config: ServerConfiguration) returns (m: map<string, seq<MethodBinding>>)
    ensures m == Grouping(config)
  {
    m := map[];
    var rbs := config.resourceBindings;
    for i := 0 to |rbs|
      invariant GroupsBindings(m, rbs[..i])
    {
      var r := AddBindings(m, rbs[i].resourceName, rbs[i].methodBindings);
      GroupsResourceStep(m, r, rbs, i);
      m := r;
    }
    assert rbs[..|rbs|] == rbs;
    var r := AddBindings(m, "", config.serverBindings);
    GroupsServerStep(m, r, config);
    m := r;
  }

  /** The bindings of `keys`, one key after the other. */
  function Flatten(keys: seq<string>, m: map<string, seq<MethodBinding>>): seq<MethodBinding>
    requires forall k :: k in keys ==> k in m
  {
    if keys == [] then [] else Flatten(keys[..|keys| - 1], m) + m[keys[|keys| - 1]]
  }

  lemma FlattenAppend(keys: seq<string>, k: string, m: map<string, seq<MethodBinding>>)
    requires forall k :: k in keys ==> k in m
    requires k in m
    ensures Flatten(keys + [k], m) == Flatten(keys, m) + m[k]
  {
    assert (keys + [k])[..|keys|] == keys;
  }

  /** Every binding in the order the provider visits them: keys ascending,
      and each key's bindings in registration order. */
  ghost function VisitOrder(m: map<string, seq<MethodBinding>>): seq<MethodBinding>
  {
    Flatten(Ordered(m.Keys), m)
  }

  /** `createOperationName`: the binding's name without its first character. */
  function CreateOperationName(b: MethodBinding): (r: string)
    requires b.kind.OperationBinding?
    ensures [b.kind.name[0]] + r == b.kind.name
  {
    b.kind.name[1..]
  }
}
