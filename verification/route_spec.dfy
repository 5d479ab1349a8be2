/** Typed route descriptors (`ELRouter/RouteSpec.swift`): a `RouteSpec` is a
    name, a routing type and an optional example URL; call sites turn a list
    of them into the string components the router matches. */
module RouteSpec {
  import opened Wrappers
  import RouteTree

  datatype Spec = Spec(name: string, kind: RouteTree.RoutingType, example: Option<string>)

  /** `Variable(value:)`: a spec standing for a concrete variable value. */
  function Variable(value: string): (s: Spec)
    ensures s.name == value
    ensures s.kind == RouteTree.Variable
    ensures s.example == None
  {
    Spec(value, RouteTree.Variable, None)
  }

  /** `componentsFromRoutes`: the spec names, one per spec, in order. */
  function ComponentsFromRoutes(specs: seq<Spec>): (r: seq<string>)
    ensures |r| == |specs|
    ensures forall k :: 0 <= k < |specs| ==> r[k] == specs[k].name
  {
    if |specs| == 0 then []
    else ComponentsFromRoutes(specs[..|specs| - 1]) + [specs[|specs| - 1].name]
  }

  /** A `Variable(v)` entry becomes exactly `v`, at its own index, whatever
      surrounds it. */
  lemma {:induction false} VariableComponent(before: seq<Spec>, v: string, after: seq<Spec>)
    ensures var r := ComponentsFromRoutes(before + [Variable(v)] + after);
      |r| == |before| + 1 + |after| && r[|before|] == v
  {
    assert (before + [Variable(v)] + after)[|before|] == Variable(v);
  }

  /** `comps` are the names of `specs`, position by position. */
  predicate NamesOf(comps: seq<string>, specs: seq<Spec>) {
    |comps| == |specs| && forall j :: 0 <= j < |comps| ==> comps[j] == specs[j].name
  }

  /** Dropping the same number of entries from both keeps them aligned. */
  lemma NamesOfSuffix(comps: seq<string>, specs: seq<Spec>, k: nat)
    requires NamesOf(comps, specs) && k <= |specs|
    ensures NamesOf(comps[k..], specs[k..])
  {
    forall j | 0 <= j < |comps| - k
      ensures comps[k..][j] == specs[k..][j].name
    {
      assert comps[k..][j] == comps[k + j] && specs[k..][j] == specs[k + j];
    }
  }

  /** `route(_ route: RouteEnum, action:)`: the named builder, fed from a spec. */
  function AddRouteForSpec(t: RouteTree.Tree, self: RouteTree.NodeId, spec: Spec, action: Option<RouteTree.ActionId>): (r: Result<RouteTree.Built, RouteTree.RouteError>)
    requires RouteTree.WellFormed(t) && self < |t.nodes|
    ensures r.Success? ==> r.value.id == |t.nodes| && |r.value.tree.nodes| == |t.nodes| + 1
    ensures r.Success? ==> r.value.tree.nodes[r.value.id].name == Some(spec.name)
    ensures r.Success? ==> r.value.tree.nodes[r.value.id].kind == spec.kind
    ensures r.Failure? <==> exists k :: 0 <= k < |t.nodes[self].subRoutes| && RouteTree.NameOf(t, t.nodes[self].subRoutes[k]) == Some(spec.name)
  {
    RouteTree.AddRoute(t, self, spec.name, spec.kind, action)
  }
}
