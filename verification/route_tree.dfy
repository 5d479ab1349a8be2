/** The route tree of ELRouter (`ELRouter/Route.swift`).

    Swift routes are reference objects: a node built in one place may be
    registered and extended elsewhere, and children point back at their
    parent. The model keeps every node in one arena, `Tree.nodes`, and names
    a node by its index there. Nodes are only ever appended, so an index stays
    valid for the life of the tree, and a parent is always created before its
    child, which is what makes walking up the parent chain terminate. */
module RouteTree {
  import opened Wrappers

  /** How a matched route hands its action's result to the navigator. */
  datatype RoutingType = Segue | Fixed | Push | Modal | Variable | Redirect | Other

  type NodeId = nat

  /** An opaque handle on a route's action closure. What a closure does is
      a parameter of the dispatch model, not part of the tree. */
  type ActionId = nat

  /** One `Route` object. `name` is nil for variable nodes; `parent` is the
      back link set at construction; `subRoutes` is in registration order. */
  datatype Node = Node(
    name: Option<string>,
    kind: RoutingType,
    action: Option<ActionId>,
    parent: Option<NodeId>,
    subRoutes: seq<NodeId>)

  datatype Tree = Tree(nodes: seq<Node>)

  /** Result of a builder: the grown tree and the id of the node it made. */
  datatype Built = Built(tree: Tree, id: NodeId)

  /** The builders' loud failures (an exception under unit test, an
      assertion otherwise). */
  datatype RouteError =
    | DuplicateVariable
    | DuplicateName(name: string)
    | VariableCopy
    | UnnamedCopy

  predicate NodeOk(t: Tree, i: NodeId)
    requires i < |t.nodes|
  {
    && (t.nodes[i].parent.Some? ==> t.nodes[i].parent.value < i)
    && (forall c :: c in t.nodes[i].subRoutes ==> c < |t.nodes|)
  }

  /** Every child id names a node, and every parent was created earlier. */
  predicate WellFormed(t: Tree) {
    forall i :: 0 <= i < |t.nodes| ==> NodeOk(t, i)
  }

  function NameOf(t: Tree, id: NodeId): Option<string> {
    if id < |t.nodes| then t.nodes[id].name else None
  }

  /** No two entries of `ids` carry the same (non-nil) name. */
  predicate DistinctNames(t: Tree, ids: seq<NodeId>) {
    forall j, k :: 0 <= j < k < |ids| && NameOf(t, ids[j]).Some? ==> NameOf(t, ids[j]) != NameOf(t, ids[k])
  }

  /** The sibling invariant the checked builders and `register` keep. */
  predicate UniqueNames(t: Tree) {
    forall i :: 0 <= i < |t.nodes| ==> DistinctNames(t, t.nodes[i].subRoutes)
  }

  // ---------------------------------------------------------------------
  // Lookups
  // ---------------------------------------------------------------------

  /** What `filterByName` and `filterByType` test of one route. A variable
      node's name is nil, so it never matches by name. */
  datatype Criterion = ByName(name: string) | ByType(kind: RoutingType)

  predicate Matches(t: Tree, id: NodeId, c: Criterion) {
    id < |t.nodes| &&
    match c
    case ByName(n) => t.nodes[id].name == Some(n)
    case ByType(k) => t.nodes[id].kind == k
  }

  /** The order-preserving filter behind `filterByName`/`filterByType`. */
  function Filter(t: Tree, ids: seq<NodeId>, c: Criterion): (r: seq<NodeId>)
    ensures |r| <= |ids|
    ensures forall k :: 0 <= k < |r| ==> r[k] in ids && Matches(t, r[k], c)
    ensures forall x :: x in ids && Matches(t, x, c) ==> x in r
  {
    if |ids| == 0 then []
    else
      var rest := Filter(t, ids[1..], c);
      if Matches(t, ids[0], c) then [ids[0]] + rest else rest
  }

  function FilterByName(t: Tree, ids: seq<NodeId>, name: string): seq<NodeId> {
    Filter(t, ids, ByName(name))
  }

  function FilterByType(t: Tree, ids: seq<NodeId>, kind: RoutingType): seq<NodeId> {
    Filter(t, ids, ByType(kind))
  }

  /** `x` occurs in `ids`, matches, and nothing before it matches. */
  ghost predicate IsFirstMatch(t: Tree, ids: seq<NodeId>, x: NodeId, c: Criterion) {
    exists k :: 0 <= k < |ids| && ids[k] == x && Matches(t, x, c) &&
      forall j :: 0 <= j < k ==> !Matches(t, ids[j], c)
  }

  /** "The first element of the filtered list, or nil". */
  function First(t: Tree, ids: seq<NodeId>, c: Criterion): (r: Option<NodeId>)
    ensures r.Some? <==> exists k :: 0 <= k < |ids| && Matches(t, ids[k], c)
    ensures r.Some? ==> r.value in ids && Matches(t, r.value, c)
    ensures r.Some? ==> IsFirstMatch(t, ids, r.value, c)
  {
    var results := Filter(t, ids, c);
    if |results| > 0 then
      FilterHeadIsFirst(t, ids, c);
      Some(results[0])
    else None
  }

  function RoutesForName(t: Tree, self: NodeId, name: string): seq<NodeId>
    requires self < |t.nodes|
  {
    FilterByName(t, t.nodes[self].subRoutes, name)
  }

  function RouteForName(t: Tree, self: NodeId, name: string): Option<NodeId>
    requires self < |t.nodes|
  {
    First(t, t.nodes[self].subRoutes, ByName(name))
  }

  function RoutesForType(t: Tree, self: NodeId, kind: RoutingType): seq<NodeId>
    requires self < |t.nodes|
  {
    FilterByType(t, t.nodes[self].subRoutes, kind)
  }

  function RouteForType(t: Tree, self: NodeId, kind: RoutingType): Option<NodeId>
    requires self < |t.nodes|
  {
    First(t, t.nodes[self].subRoutes, ByType(kind))
  }

  /** Filtering distributes over concatenation: together with the
      singleton case (keep iff it matches) this pins the filter down as
      "exactly the matching elements, in their original order". */
  lemma {:induction false} FilterAppend(t: Tree, a: seq<NodeId>, b: seq<NodeId>, c: Criterion)
    ensures Filter(t, a + b, c) == Filter(t, a, c) + Filter(t, b, c)
  {
    if |a| == 0 {
      assert a + b == b;
    } else {
      assert (a + b)[1..] == a[1..] + b;
      FilterAppend(t, a[1..], b, c);
    }
  }

  lemma {:induction false} FilterSingleton(t: Tree, x: NodeId, c: Criterion)
    ensures Filter(t, [x], c) == if Matches(t, x, c) then [x] else []
  {
    assert [x][1..] == [];
  }

  lemma {:induction false} FilterHeadIsFirst(t: Tree, ids: seq<NodeId>, c: Criterion)
    requires |Filter(t, ids, c)| > 0
    ensures IsFirstMatch(t, ids, Filter(t, ids, c)[0], c)
  {
    if Matches(t, ids[0], c) {
      assert ids[0] == Filter(t, ids, c)[0];
    } else {
      var rest := ids[1..];
      FilterHeadIsFirst(t, rest, c);
      var k :| 0 <= k < |rest| && rest[k] == Filter(t, rest, c)[0] && Matches(t, rest[k], c) &&
        forall j :: 0 <= j < k ==> !Matches(t, rest[j], c);
      assert ids[k + 1] == rest[k];
      forall j | 0 <= j < k + 1
        ensures !Matches(t, ids[j], c)
      {
        if j > 0 {
          assert ids[j] == rest[j - 1];
        }
      }
    }
  }

  /** Filtering only looks at names and kinds, so it gives the same answer
      on a tree that agrees with the old one there. */
  lemma {:induction false} FilterFrame(t: Tree, t': Tree, ids: seq<NodeId>, c: Criterion)
    requires |t.nodes| <= |t'.nodes|
    requires forall x :: x in ids ==> x < |t.nodes|
    requires forall x :: 0 <= x < |t.nodes| ==> t'.nodes[x].name == t.nodes[x].name && t'.nodes[x].kind == t.nodes[x].kind
    ensures Filter(t', ids, c) == Filter(t, ids, c)
  {
    if |ids| > 0 {
      assert ids[0] in ids;
      assert forall x :: x in ids[1..] ==> x in ids;
      FilterFrame(t, t', ids[1..], c);
    }
  }

  lemma {:induction false} FilterNone(t: Tree, ids: seq<NodeId>, c: Criterion)
    requires forall k :: 0 <= k < |ids| ==> !Matches(t, ids[k], c)
    ensures Filter(t, ids, c) == []
  {
    if |ids| > 0 {
      FilterNone(t, ids[1..], c);
    }
  }

  /** Position `k` is the only position of `ids` that matches. */
  ghost predicate OnlyMatchAt(t: Tree, ids: seq<NodeId>, c: Criterion, k: int) {
    0 <= k < |ids| && Matches(t, ids[k], c) &&
      forall j :: 0 <= j < |ids| && j != k ==> !Matches(t, ids[j], c)
  }

  /** Exactly one position of `ids` matches. */
  ghost predicate ExactlyOne(t: Tree, ids: seq<NodeId>, c: Criterion) {
    exists k :: OnlyMatchAt(t, ids, c, k)
  }

  predicate NoneMatch(t: Tree, ids: seq<NodeId>, c: Criterion) {
    forall j :: 0 <= j < |ids| ==> !Matches(t, ids[j], c)
  }

  lemma {:induction false} FilterEmptyIff(t: Tree, ids: seq<NodeId>, c: Criterion)
    ensures Filter(t, ids, c) == [] <==> NoneMatch(t, ids, c)
  {
    if NoneMatch(t, ids, c) {
      FilterNone(t, ids, c);
    }
  }

  lemma ExactlyOneHeadMatch(t: Tree, ids: seq<NodeId>, c: Criterion)
    requires |ids| > 0 && Matches(t, ids[0], c)
    ensures ExactlyOne(t, ids, c) <==> NoneMatch(t, ids[1..], c)
  {
    var rest := ids[1..];
    if ExactlyOne(t, ids, c) {
      var k :| OnlyMatchAt(t, ids, c, k);
      assert k == 0;
      forall j | 0 <= j < |rest|
        ensures !Matches(t, rest[j], c)
      {
        assert rest[j] == ids[j + 1];
      }
    }
    if NoneMatch(t, rest, c) {
      forall j | 0 <= j < |ids| && j != 0
        ensures !Matches(t, ids[j], c)
      {
        assert ids[j] == rest[j - 1];
      }
      assert OnlyMatchAt(t, ids, c, 0);
    }
  }

  /** Dropping a head that does not match moves the only match one down. */
  lemma OnlyMatchDrop(t: Tree, ids: seq<NodeId>, c: Criterion, k: int)
    requires |ids| > 0 && !Matches(t, ids[0], c) && OnlyMatchAt(t, ids, c, k)
    ensures OnlyMatchAt(t, ids[1..], c, k - 1)
  {
    var rest := ids[1..];
    assert rest[k - 1] == ids[k];
    forall j | 0 <= j < |rest| && j != k - 1
      ensures !Matches(t, rest[j], c)
    {
      assert rest[j] == ids[j + 1];
    }
  }

  /** Putting back a head that does not match moves the only match one up. */
  lemma OnlyMatchCons(t: Tree, ids: seq<NodeId>, c: Criterion, k: int)
    requires |ids| > 0 && !Matches(t, ids[0], c) && OnlyMatchAt(t, ids[1..], c, k)
    ensures OnlyMatchAt(t, ids, c, k + 1)
  {
    var rest := ids[1..];
    assert ids[k + 1] == rest[k];
    forall j | 0 <= j < |ids| && j != k + 1
      ensures !Matches(t, ids[j], c)
    {
      if j > 0 {
        assert ids[j] == rest[j - 1];
      }
    }
  }

  lemma ExactlyOneHeadMiss(t: Tree, ids: seq<NodeId>, c: Criterion)
    requires |ids| > 0 && !Matches(t, ids[0], c)
    ensures ExactlyOne(t, ids, c) <==> ExactlyOne(t, ids[1..], c)
  {
    if ExactlyOne(t, ids, c) {
      var k :| OnlyMatchAt(t, ids, c, k);
      OnlyMatchDrop(t, ids, c, k);
    }
    if ExactlyOne(t, ids[1..], c) {
      var k :| OnlyMatchAt(t, ids[1..], c, k);
      OnlyMatchCons(t, ids, c, k);
    }
  }

  /** The filtered list has length one exactly when one sibling matches. */
  lemma {:induction false} FilterExactlyOne(t: Tree, ids: seq<NodeId>, c: Criterion)
    ensures |Filter(t, ids, c)| == 1 <==> ExactlyOne(t, ids, c)
  {
    if |ids| > 0 {
      if Matches(t, ids[0], c) {
        FilterEmptyIff(t, ids[1..], c);
        ExactlyOneHeadMatch(t, ids, c);
      } else {
        FilterExactlyOne(t, ids[1..], c);
        ExactlyOneHeadMiss(t, ids, c);
      }
    }
  }

  // ---------------------------------------------------------------------
  // Builders
  // ---------------------------------------------------------------------

  /** A route built on its own, possibly with a parent back link that is not
      (yet) matched by a subroute entry, as the public initialisers allow. */
  function NewRoute(t: Tree, name: Option<string>, kind: RoutingType, parent: Option<NodeId>, action: Option<ActionId>): (r: Built)
    requires WellFormed(t)
    requires parent.Some? ==> parent.value < |t.nodes|
    ensures WellFormed(r.tree)
    ensures r.id == |t.nodes| && |r.tree.nodes| == |t.nodes| + 1
    ensures r.tree.nodes[r.id] == Node(name, kind, action, parent, [])
    ensures forall i :: 0 <= i < |t.nodes| ==> r.tree.nodes[i] == t.nodes[i]
    ensures UniqueNames(t) ==> UniqueNames(r.tree)
  {
    var t' := Tree(t.nodes + [Node(name, kind, action, parent, [])]);
    assert forall i :: 0 <= i < |t'.nodes| ==> NodeOk(t', i) by {
      forall i | 0 <= i < |t'.nodes|
        ensures NodeOk(t', i)
      {
        if i < |t.nodes| {
          assert NodeOk(t, i);
        }
      }
    }
    NamesFrameNewNode(t, t');
    Built(t', |t.nodes|)
  }

  lemma NamesFrameNewNode(t: Tree, t': Tree)
    requires WellFormed(t)
    requires |t'.nodes| == |t.nodes| + 1 && t'.nodes[|t.nodes|].subRoutes == []
    requires forall i :: 0 <= i < |t.nodes| ==> t'.nodes[i] == t.nodes[i]
    ensures UniqueNames(t) ==> UniqueNames(t')
  {
    if UniqueNames(t) {
      forall i | 0 <= i < |t'.nodes|
        ensures DistinctNames(t', t'.nodes[i].subRoutes)
      {
        if i < |t.nodes| {
          assert NodeOk(t, i);
          DistinctNamesFrame(t, t', t.nodes[i].subRoutes);
        }
      }
    }
  }

  /** `t'` is `t` with one new node `n` appended as the last subroute of
      `self`, every other node untouched. */
  ghost predicate AppendsChild(t: Tree, b: Built, self: NodeId, n: Node) {
    && self < |t.nodes|
    && b.id == |t.nodes|
    && |b.tree.nodes| == |t.nodes| + 1
    && b.tree.nodes[b.id] == n
    && b.tree.nodes[self] == t.nodes[self].(subRoutes := t.nodes[self].subRoutes + [b.id])
    && (forall i :: 0 <= i < |t.nodes| && i != self ==> b.tree.nodes[i] == t.nodes[i])
  }

  function Attach(t: Tree, self: NodeId, n: Node): (r: Built)
    requires WellFormed(t) && self < |t.nodes|
    requires n.parent == Some(self) && n.subRoutes == []
    ensures AppendsChild(t, r, self, n)
    ensures WellFormed(r.tree)
  {
    var id := |t.nodes|;
    var p := t.nodes[self];
    var t' := Tree(t.nodes[self := p.(subRoutes := p.subRoutes + [id])] + [n]);
    assert forall i :: 0 <= i < |t'.nodes| ==> NodeOk(t', i) by {
      forall i | 0 <= i < |t'.nodes|
        ensures NodeOk(t', i)
      {
        if i < |t.nodes| {
          assert NodeOk(t, i);
        }
      }
    }
    Built(t', id)
  }

  lemma DistinctNamesFrame(t: Tree, t': Tree, ids: seq<NodeId>)
    requires |t.nodes| <= |t'.nodes|
    requires forall x :: x in ids ==> x < |t.nodes|
    requires forall x :: 0 <= x < |t.nodes| ==> t'.nodes[x].name == t.nodes[x].name
    requires DistinctNames(t, ids)
    ensures DistinctNames(t', ids)
  {
    forall j, k | 0 <= j < k < |ids| && NameOf(t', ids[j]).Some?
      ensures NameOf(t', ids[j]) != NameOf(t', ids[k])
    {
      assert ids[j] in ids && ids[k] in ids;
    }
  }

  /** Appending a child whose name no sibling has keeps `UniqueNames`. */
  lemma AttachKeepsUniqueNames(t: Tree, b: Built, self: NodeId, n: Node)
    requires WellFormed(t) && UniqueNames(t)
    requires AppendsChild(t, b, self, n) && n.subRoutes == []
    requires n.name.Some? ==> forall k :: 0 <= k < |t.nodes[self].subRoutes| ==> !Matches(t, t.nodes[self].subRoutes[k], ByName(n.name.value))
    ensures UniqueNames(b.tree)
  {
    var t' := b.tree;
    forall i | 0 <= i < |t'.nodes|
      ensures DistinctNames(t', t'.nodes[i].subRoutes)
    {
      if i < |t.nodes| {
        assert NodeOk(t, i);
        var old_ := t.nodes[i].subRoutes;
        DistinctNamesFrame(t, t', old_);
        if i == self {
          var ids := old_ + [b.id];
          forall j, k | 0 <= j < k < |ids| && NameOf(t', ids[j]).Some?
            ensures NameOf(t', ids[j]) != NameOf(t', ids[k])
          {
            if k < |old_| {
              assert ids[j] == old_[j] && ids[k] == old_[k];
            } else {
              assert ids[j] == old_[j] && ids[k] == b.id;
              assert old_[j] in old_;
              if n.name.Some? {
                assert !Matches(t, old_[j], ByName(n.name.value));
              }
            }
          }
        }
      }
    }
  }

  /** `variable(_:)`: fails when a variable subroute exists, otherwise
      appends one nameless variable node whose parent is `self`. */
  function AddVariable(t: Tree, self: NodeId, action: Option<ActionId>): (r: Result<Built, RouteError>)
    requires WellFormed(t) && self < |t.nodes|
    ensures r.Failure? <==> exists k :: 0 <= k < |t.nodes[self].subRoutes| && Matches(t, t.nodes[self].subRoutes[k], ByType(Variable))
    ensures r.Failure? ==> r.error == DuplicateVariable
    ensures r.Success? ==> AppendsChild(t, r.value, self, Node(None, Variable, action, Some(self), []))
    ensures r.Success? ==> WellFormed(r.value.tree)
    ensures r.Success? ==> RouteForType(r.value.tree, self, Variable) == Some(r.value.id)
    ensures r.Success? && UniqueNames(t) ==> UniqueNames(r.value.tree)
  {
    if RouteForType(t, self, Variable).Some? then Failure(DuplicateVariable)
    else
      var n := Node(None, Variable, action, Some(self), []);
      var b := Attach(t, self, n);
      AttachLookup(t, b, self, n, ByType(Variable));
      if UniqueNames(t) then AttachKeepsUniqueNames(t, b, self, n); Success(b)
      else Success(b)
  }

  /** After appending a child that matches `c` under a node with no child
      matching `c`, the first match is the new child. */
  lemma AttachLookup(t: Tree, b: Built, self: NodeId, n: Node, c: Criterion)
    requires WellFormed(t) && AppendsChild(t, b, self, n)
    requires forall k :: 0 <= k < |t.nodes[self].subRoutes| ==> !Matches(t, t.nodes[self].subRoutes[k], c)
    requires Matches(b.tree, b.id, c)
    ensures First(b.tree, b.tree.nodes[self].subRoutes, c) == Some(b.id)
  {
    var old_ := t.nodes[self].subRoutes;
    assert NodeOk(t, self);
    FilterAppend(b.tree, old_, [b.id], c);
    FilterFrame(t, b.tree, old_, c);
    FilterNone(t, old_, c);
    FilterSingleton(b.tree, b.id, c);
  }

  /** `route(_:type:action:)`: fails when a subroute of that name exists,
      otherwise appends one node with that name and type. */
  function AddRoute(t: Tree, self: NodeId, name: string, kind: RoutingType, action: Option<ActionId>): (r: Result<Built, RouteError>)
    requires WellFormed(t) && self < |t.nodes|
    ensures r.Failure? <==> exists k :: 0 <= k < |t.nodes[self].subRoutes| && NameOf(t, t.nodes[self].subRoutes[k]) == Some(name)
    ensures r.Failure? ==> r.error == DuplicateName(name)
    ensures r.Success? ==> AppendsChild(t, r.value, self, Node(Some(name), kind, action, Some(self), []))
    ensures r.Success? ==> WellFormed(r.value.tree)
    ensures r.Success? ==> RouteForName(r.value.tree, self, name) == Some(r.value.id)
    ensures r.Success? && UniqueNames(t) ==> UniqueNames(r.value.tree)
  {
    if RouteForName(t, self, name).Some? then Failure(DuplicateName(name))
    else
      var n := Node(Some(name), kind, action, Some(self), []);
      var b := Attach(t, self, n);
      AttachLookup(t, b, self, n, ByName(name));
      if UniqueNames(t) then AttachKeepsUniqueNames(t, b, self, n); Success(b)
      else Success(b)
  }

  /** `route(_ route: Route)`: copies name, type and action of `src` into a
      new subroute without `src`'s subroutes. A variable source is refused;
      a nameless non-variable source traps on the force-unwrap of its name. */
  function CopyRoute(t: Tree, self: NodeId, src: NodeId): (r: Result<Built, RouteError>)
    requires WellFormed(t) && self < |t.nodes| && src < |t.nodes|
    ensures t.nodes[src].kind == Variable ==> r == Failure(VariableCopy)
    ensures t.nodes[src].kind != Variable && t.nodes[src].name.None? ==> r == Failure(UnnamedCopy)
    ensures t.nodes[src].kind != Variable && t.nodes[src].name.Some? ==>
      (r.Failure? <==> exists k :: 0 <= k < |t.nodes[self].subRoutes| && NameOf(t, t.nodes[self].subRoutes[k]) == t.nodes[src].name)
    ensures r.Success? ==> AppendsChild(t, r.value, self,
      Node(t.nodes[src].name, t.nodes[src].kind, t.nodes[src].action, Some(self), []))
    ensures r.Success? ==> WellFormed(r.value.tree)
    ensures r.Success? && UniqueNames(t) ==> UniqueNames(r.value.tree)
  {
    var s := t.nodes[src];
    if s.kind == Variable then Failure(VariableCopy)
    else if s.name.None? then Failure(UnnamedCopy)
    else if RouteForName(t, self, s.name.value).Some? then Failure(DuplicateName(s.name.value))
    else
      var n := Node(s.name, s.kind, s.action, Some(self), []);
      var b := Attach(t, self, n);
      if UniqueNames(t) then AttachKeepsUniqueNames(t, b, self, n); Success(b)
      else Success(b)
  }
}
