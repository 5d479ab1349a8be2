/** The legacy THGRouter (`THGRouter/Route.swift`, `THGRouter/Router.swift`,
    `THGRouter/NSURL+DeepLink.swift`): the same tree shape without types,
    parent links or any checks. Builders and registration only append, so
    a name may occur any number of times among siblings or top-level
    routes. */
module Legacy {
  import opened Wrappers
  import DeepLink
  import Translation

  /** A legacy route: an optional name, an optional action, subroutes. */
  datatype Node = Node(name: Option<string>, action: Option<nat>, subRoutes: seq<nat>)

  datatype Tree = Tree(nodes: seq<Node>)

  datatype Built = Built(tree: Tree, id: nat)

  predicate WellFormed(t: Tree) {
    forall i, c :: 0 <= i < |t.nodes| && c in t.nodes[i].subRoutes ==> c < |t.nodes|
  }

  /** How many of `ids` carry the name `name`. */
  function NamedCount(t: Tree, ids: seq<nat>, name: string): nat {
    if |ids| == 0 then 0
    else
      var last := ids[|ids| - 1];
      NamedCount(t, ids[..|ids| - 1], name) + if last < |t.nodes| && t.nodes[last].name == Some(name) then 1 else 0
  }

  /** Counting only looks at the names of the nodes counted. */
  lemma {:induction false} NamedCountFrame(t: Tree, t': Tree, ids: seq<nat>, name: string)
    requires |t.nodes| <= |t'.nodes|
    requires forall k :: 0 <= k < |ids| ==> ids[k] < |t.nodes|
    requires forall x :: 0 <= x < |t.nodes| ==> t'.nodes[x].name == t.nodes[x].name
    ensures NamedCount(t', ids, name) == NamedCount(t, ids, name)
  {
    if |ids| > 0 {
      var init := ids[..|ids| - 1];
      assert forall k :: 0 <= k < |init| ==> init[k] == ids[k];
      NamedCountFrame(t, t', init, name);
    }
  }

  /** Append `n` as the last subroute of `self`; nothing is checked. */
  function Append(t: Tree, self: nat, n: Node): (b: Built)
    requires WellFormed(t) && self < |t.nodes| && n.subRoutes == []
    ensures WellFormed(b.tree)
    ensures b.id == |t.nodes| && |b.tree.nodes| == |t.nodes| + 1 && b.tree.nodes[b.id] == n
    ensures b.tree.nodes[self].subRoutes == t.nodes[self].subRoutes + [b.id]
    ensures b.tree.nodes[self].name == t.nodes[self].name && b.tree.nodes[self].action == t.nodes[self].action
    ensures forall i :: 0 <= i < |t.nodes| && i != self ==> b.tree.nodes[i] == t.nodes[i]
  {
    var p := t.nodes[self];
    var id := |t.nodes|;
    Built(Tree(t.nodes[self := p.(subRoutes := p.subRoutes + [id])] + [n]), id)
  }

  /** Appending a child named `name` raises the count of `name` among the
      siblings by exactly one, whatever was there before. */
  lemma {:induction false} AppendCount(t: Tree, self: nat, n: Node, name: string)
    requires WellFormed(t) && self < |t.nodes| && n.subRoutes == []
    ensures var b := Append(t, self, n);
      NamedCount(b.tree, b.tree.nodes[self].subRoutes, name) ==
        NamedCount(t, t.nodes[self].subRoutes, name) + (if n.name == Some(name) then 1 else 0)
  {
    var b := Append(t, self, n);
    var old_ := t.nodes[self].subRoutes;
    var ids := b.tree.nodes[self].subRoutes;
    assert ids[..|ids| - 1] == old_;
    assert forall k :: 0 <= k < |old_| ==> old_[k] < |t.nodes| by {
      forall k | 0 <= k < |old_|
        ensures old_[k] < |t.nodes|
      {
        assert old_[k] in t.nodes[self].subRoutes;
      }
    }
    NamedCountFrame(t, b.tree, old_, name);
  }

  /** `variable(action:)`: appends a nameless route. The action argument is
      dropped: the new route has no action. */
  function AddVariable(t: Tree, self: nat, action: Option<nat>): (b: Built)
    requires WellFormed(t) && self < |t.nodes|
    ensures WellFormed(b.tree)
    ensures b.id == |t.nodes| && |b.tree.nodes| == |t.nodes| + 1
    ensures b.tree.nodes[b.id].name.None? && b.tree.nodes[b.id].action.None? && b.tree.nodes[b.id].subRoutes == []
    ensures b.tree.nodes[self].subRoutes == t.nodes[self].subRoutes + [b.id]
    ensures forall i :: 0 <= i < |t.nodes| && i != self ==> b.tree.nodes[i] == t.nodes[i]
  {
    Append(t, self, Node(None, None, []))
  }

  /** `route(name:action:)`: appends a route of that name and action, with
      no look at the existing subroutes. */
  function AddRoute(t: Tree, self: nat, name: string, action: Option<nat>): (b: Built)
    requires WellFormed(t) && self < |t.nodes|
    ensures WellFormed(b.tree)
    ensures b.id == |t.nodes| && |b.tree.nodes| == |t.nodes| + 1
    ensures b.tree.nodes[b.id] == Node(Some(name), action, [])
    ensures b.tree.nodes[self].subRoutes == t.nodes[self].subRoutes + [b.id]
    ensures forall i :: 0 <= i < |t.nodes| && i != self ==> b.tree.nodes[i] == t.nodes[i]
    ensures NamedCount(b.tree, b.tree.nodes[self].subRoutes, name) == NamedCount(t, t.nodes[self].subRoutes, name) + 1
  {
    AppendCount(t, self, Node(Some(name), action, []), name);
    Append(t, self, Node(Some(name), action, []))
  }

  /** Adding the same name twice under one route yields two subroutes of
      that name; the checked tree refuses the second. */
  lemma {:induction false} SameNameTwice(t: Tree, self: nat, name: string, a1: Option<nat>, a2: Option<nat>)
    requires WellFormed(t) && self < |t.nodes|
    requires NamedCount(t, t.nodes[self].subRoutes, name) == 0
    ensures var b1 := AddRoute(t, self, name, a1);
      var b2 := AddRoute(b1.tree, self, name, a2);
      && b2.tree.nodes[self].subRoutes == t.nodes[self].subRoutes + [b1.id, b2.id]
      && NamedCount(b2.tree, b2.tree.nodes[self].subRoutes, name) == 2
  {
    var b1 := AddRoute(t, self, name, a1);
    var b2 := AddRoute(b1.tree, self, name, a2);
    assert b2.tree.nodes[self].subRoutes == (t.nodes[self].subRoutes + [b1.id]) + [b2.id];
  }

  // ---------------------------------------------------------------------
  // The legacy router
  // ---------------------------------------------------------------------

  datatype Router = Router(tree: Tree, routes: seq<nat>, translation: map<string, string>)

  /** `register(route:)`: a named route is appended, even when one of that
      name is registered already; a nameless one is ignored. */
  function Register(r: Router, route: nat): (r': Router)
    requires route < |r.tree.nodes|
    ensures r.tree.nodes[route].name.Some? ==> r'.routes == r.routes + [route]
    ensures r.tree.nodes[route].name.None? ==> r' == r
    ensures r'.tree == r.tree && r'.translation == r.translation
    ensures multiset(r'.routes)[route] == multiset(r.routes)[route] + (if r.tree.nodes[route].name.Some? then 1 else 0)
  {
    if r.tree.nodes[route].name.Some? then r.(routes := r.routes + [route]) else r
  }

  /** Registering one named route twice lists it twice. */
  lemma RegisterTwice(r: Router, route: nat)
    requires route < |r.tree.nodes| && r.tree.nodes[route].name.Some?
    ensures Register(Register(r, route), route).routes == r.routes + [route, route]
    ensures multiset(Register(Register(r, route), route).routes)[route] == multiset(r.routes)[route] + 2
  {
    assert (r.routes + [route]) + [route] == r.routes + [route, route];
  }

  /** `translate(from:to:)`: the shared translation table rule. */
  function TranslateRoute(r: Router, from: string, to: string): (res: Result<Router, Translation.TranslateError>)
    ensures res.Failure? <==> from in r.translation
    ensures res.Success? ==> res.value.tree == r.tree && res.value.routes == r.routes
    ensures res.Success? ==> res.value.translation.Keys == r.translation.Keys + {from} && res.value.translation[from] == to
    ensures res.Success? ==> forall k :: k in r.translation ==> k in res.value.translation && res.value.translation[k] == r.translation[k]
  {
    var table :- Translation.Translate(r.translation, from, to);
    Success(r.(translation := table))
  }

  // ---------------------------------------------------------------------
  // Legacy deep links
  // ---------------------------------------------------------------------

  /** The legacy filter closure: keep every entry except "/". */
  predicate Keep(item: string) {
    if item == "/" then false else true
  }

  function Filtered(path: seq<string>): (r: seq<string>)
    ensures forall k :: 0 <= k < |r| ==> Keep(r[k])
  {
    if |path| == 0 then []
    else if Keep(path[0]) then [path[0]] + Filtered(path[1..])
    else Filtered(path[1..])
  }

  /** The legacy `deepLinkComponents`. */
  function DeepLinkComponents(url: DeepLink.Url): (r: Option<seq<string>>)
    ensures r.None? <==> url.pathComponents.None?
    ensures r.Some? && url.host.Some? ==> |r.value| > 0 && r.value[0] == url.host.value
  {
    match url.pathComponents
    case None => None
    case Some(path) =>
      var components := if url.host.Some? then [url.host.value] else [];
      Some(components + Filtered(path))
  }

  lemma {:induction false} FilteredAgrees(path: seq<string>)
    ensures Filtered(path) == DeepLink.WithoutSlashes(path)
  {
    if |path| > 0 {
      FilteredAgrees(path[1..]);
    }
  }

  /** The legacy and current decompositions agree on every URL. */
  lemma DeepLinkAgrees(url: DeepLink.Url)
    ensures DeepLinkComponents(url) == DeepLink.DeepLinkComponents(url)
  {
    if url.pathComponents.Some? {
      FilteredAgrees(url.pathComponents.value);
    }
  }

  /** `scheme://walmart.com/bar/foo`: host "walmart.com", path components
      "/", "bar", "foo". */
  lemma WalmartExample()
    ensures DeepLinkComponents(DeepLink.Url(Some("walmart.com"), Some(["/", "bar", "foo"])))
      == Some(["walmart.com", "bar", "foo"])
  {
    var path := ["/", "bar", "foo"];
    assert path[1..] == ["bar", "foo"];
    assert ["bar", "foo"][1..] == ["foo"];
    assert ["foo"][1..] == [];
    assert "bar" != "/" by { assert |"bar"| != 1; }
    assert "foo" != "/" by { assert |"foo"| != 1; }
    assert Filtered(["foo"]) == ["foo"];
    assert Filtered(["bar", "foo"]) == ["bar", "foo"];
    assert Filtered(path) == ["bar", "foo"];
    assert ["walmart.com"] + ["bar", "foo"] == ["walmart.com", "bar", "foo"];
  }
}
