/** The `Router` facade of ELRouter (`ELRouter/Router.swift`): the master
    route, top-level registration, lookup by spec, and the evaluation entry
    points that match components against the tree and hand the matched path
    to the dispatch loop.

    The in-flight gate (`routesInFlight`) is a field of the router state.
    A session that ends `Trapped` stands for a Swift runtime trap, which
    aborts the process; the gate left set in the model is only a marker
    that the session never completed, not a state the program reaches. */
module Router {
  import opened Wrappers
  import opened RouteTree
  import opened Matcher
  import opened Dispatch
  import RouteSpec
  import DeepLink
  import Translation

  /** The master route is the first node of every router's tree. */
  const Master: NodeId := 0

  datatype State = State(tree: Tree, translation: map<string, string>, inFlight: bool)

  /** The router invariant: a well-formed tree that holds the master route,
      and no node whose parent link points at the master (registration
      appends to the master's subroutes without setting a parent). */
  predicate Valid(r: State) {
    && WellFormed(r.tree)
    && |r.tree.nodes| > 0
    && forall i :: 0 <= i < |r.tree.nodes| ==> r.tree.nodes[i].parent != Some(Master)
  }

  /** The top-level routes: the master route's subroutes. */
  function Routes(r: State): seq<NodeId>
    requires Valid(r)
  {
    r.tree.nodes[Master].subRoutes
  }

  /** A fresh router: only the master route "MASTER" of type `.other`, no
      translations, nothing in flight. */
  function Init(): (r: State)
    ensures Valid(r) && Routes(r) == [] && !r.inFlight && r.translation == map[]
    ensures r.tree.nodes[Master].name == Some("MASTER") && r.tree.nodes[Master].kind == Other
    ensures UniqueNames(r.tree)
  {
    var t := Tree([Node(Some("MASTER"), Other, None, None, [])]);
    assert NodeOk(t, 0);
    State(t, map[], false)
  }

  // ---------------------------------------------------------------------
  // Registration
  // ---------------------------------------------------------------------

  /** `a` is `d` or lies on `d`'s parent chain. */
  ghost predicate AncestorOf(t: Tree, a: NodeId, d: NodeId)
    decreases d
  {
    d < |t.nodes| &&
    (a == d || (t.nodes[d].parent.Some? && t.nodes[d].parent.value < d && AncestorOf(t, a, t.nodes[d].parent.value)))
  }

  /** The walk up the parent chain at the head of `register`. */
  function Top(t: Tree, link: NodeId): (r: NodeId)
    requires WellFormed(t) && link < |t.nodes|
    ensures r <= link && t.nodes[r].parent.None?
    ensures AncestorOf(t, r, link)
    decreases link
  {
    assert NodeOk(t, link);
    match t.nodes[link].parent
    case None => link
    case Some(p) => Top(t, p)
  }

  /** The chain has exactly one parentless node: the one `Top` finds. */
  lemma {:induction false} TopUnique(t: Tree, a: NodeId, link: NodeId)
    requires WellFormed(t) && link < |t.nodes|
    requires a < |t.nodes| && AncestorOf(t, a, link) && t.nodes[a].parent.None?
    ensures a == Top(t, link)
    decreases link
  {
    if a != link {
      TopUnique(t, a, t.nodes[link].parent.value);
    }
  }

  /** In a valid router no chain leads from another node to the master. */
  lemma {:induction false} TopNotMaster(r: State, link: NodeId)
    requires Valid(r) && 0 < link < |r.tree.nodes|
    ensures Top(r.tree, link) != Master
    decreases link
  {
    assert NodeOk(r.tree, link);
    if r.tree.nodes[link].parent.Some? {
      var p := r.tree.nodes[link].parent.value;
      assert r.tree.nodes[link].parent != Some(Master);
      TopNotMaster(r, p);
    }
  }

  /** `register`: walk from `link` up to the top of its chain; a nameless
      top is ignored, a name already used by a top-level route is refused,
      and otherwise the top is appended to the master's subroutes. */
  function Register(r: State, link: NodeId): (res: Result<State, RouteError>)
    requires Valid(r) && 0 < link < |r.tree.nodes|
    ensures var name := r.tree.nodes[Top(r.tree, link)].name;
      res.Failure? <==> name.Some? && exists k :: 0 <= k < |Routes(r)| && NameOf(r.tree, Routes(r)[k]) == name
    ensures res.Failure? ==> res.error == DuplicateName(r.tree.nodes[Top(r.tree, link)].name.value)
    ensures res.Success? && r.tree.nodes[Top(r.tree, link)].name.None? ==> res.value == r
    ensures res.Success? ==> Valid(res.value)
    ensures res.Success? && r.tree.nodes[Top(r.tree, link)].name.Some? ==>
      && Routes(res.value) == Routes(r) + [Top(r.tree, link)]
      && RouteForName(res.value.tree, Master, r.tree.nodes[Top(r.tree, link)].name.value) == Some(Top(r.tree, link))
    ensures res.Success? ==> |res.value.tree.nodes| == |r.tree.nodes|
    ensures res.Success? ==> forall i :: 0 < i < |r.tree.nodes| ==> res.value.tree.nodes[i] == r.tree.nodes[i]
    ensures res.Success? ==> res.value.tree.nodes[Master] == r.tree.nodes[Master].(subRoutes := Routes(res.value))
    ensures res.Success? ==> res.value.translation == r.translation && res.value.inFlight == r.inFlight
    ensures res.Success? && UniqueNames(r.tree) ==> UniqueNames(res.value.tree)
  {
    var top := Top(r.tree, link);
    TopNotMaster(r, link);
    var name := r.tree.nodes[top].name;
    assert NodeOk(r.tree, Master);
    if name.None? then Success(r)
    else
      FilterEmptyIff(r.tree, Routes(r), ByName(name.value));
      if |FilterByName(r.tree, Routes(r), name.value)| != 0 then
        Failure(DuplicateName(name.value))
      else
        var m := r.tree.nodes[Master];
        var t' := Tree(r.tree.nodes[Master := m.(subRoutes := m.subRoutes + [top])]);
        RegisterKeepsValid(r, t', top);
        RegisterLookup(r, t', top, name.value);
        if UniqueNames(r.tree) then
          RegisterKeepsUniqueNames(r, t', top);
          Success(r.(tree := t'))
        else Success(r.(tree := t'))
  }

  lemma RegisterKeepsValid(r: State, t': Tree, top: NodeId)
    requires Valid(r) && 0 < top < |r.tree.nodes|
    requires t' == Tree(r.tree.nodes[Master := r.tree.nodes[Master].(subRoutes := Routes(r) + [top])])
    ensures Valid(r.(tree := t'))
  {
    forall i | 0 <= i < |t'.nodes|
      ensures NodeOk(t', i)
    {
      assert NodeOk(r.tree, i);
    }
  }

  lemma RegisterLookup(r: State, t': Tree, top: NodeId, name: string)
    requires Valid(r) && 0 < top < |r.tree.nodes| && r.tree.nodes[top].name == Some(name)
    requires t' == Tree(r.tree.nodes[Master := r.tree.nodes[Master].(subRoutes := Routes(r) + [top])])
    requires NoneMatch(r.tree, Routes(r), ByName(name))
    ensures RouteForName(t', Master, name) == Some(top)
  {
    var old_ := Routes(r);
    assert NodeOk(r.tree, Master);
    FilterAppend(t', old_, [top], ByName(name));
    FilterFrame(r.tree, t', old_, ByName(name));
    FilterNone(r.tree, old_, ByName(name));
    FilterSingleton(t', top, ByName(name));
  }

  lemma RegisterKeepsUniqueNames(r: State, t': Tree, top: NodeId)
    requires Valid(r) && UniqueNames(r.tree) && 0 < top < |r.tree.nodes|
    requires t' == Tree(r.tree.nodes[Master := r.tree.nodes[Master].(subRoutes := Routes(r) + [top])])
    requires r.tree.nodes[top].name.Some?
    requires NoneMatch(r.tree, Routes(r), ByName(r.tree.nodes[top].name.value))
    ensures UniqueNames(t')
  {
    forall i | 0 <= i < |t'.nodes|
      ensures DistinctNames(t', t'.nodes[i].subRoutes)
    {
      assert NodeOk(r.tree, i);
      var old_ := r.tree.nodes[i].subRoutes;
      DistinctNamesFrame(r.tree, t', old_);
      if i == Master {
        var ids := old_ + [top];
        forall j, k | 0 <= j < k < |ids| && NameOf(t', ids[j]).Some?
          ensures NameOf(t', ids[j]) != NameOf(t', ids[k])
        {
          if k < |old_| {
            assert ids[j] == old_[j] && ids[k] == old_[k];
          } else {
            assert ids[j] == old_[j] && ids[k] == top;
            assert !Matches(r.tree, old_[j], ByName(r.tree.nodes[top].name.value));
          }
        }
      }
    }
  }

  /** The checked builders, used below the master route, keep the router
      invariant and leave the top-level routes alone. */
  lemma AddRouteKeepsValid(r: State, self: NodeId, name: string, kind: RoutingType, action: Option<ActionId>)
    requires Valid(r) && 0 < self < |r.tree.nodes|
    ensures var b := AddRoute(r.tree, self, name, kind, action);
      b.Success? ==> Valid(r.(tree := b.value.tree)) && Routes(r.(tree := b.value.tree)) == Routes(r)
    ensures var b := AddVariable(r.tree, self, action);
      b.Success? ==> Valid(r.(tree := b.value.tree)) && Routes(r.(tree := b.value.tree)) == Routes(r)
  {
    var b := AddRoute(r.tree, self, name, kind, action);
    if b.Success? {
      AppendKeepsValid(r, b.value, self, Node(Some(name), kind, action, Some(self), []));
    }
    var v := AddVariable(r.tree, self, action);
    if v.Success? {
      AppendKeepsValid(r, v.value, self, Node(None, Variable, action, Some(self), []));
    }
  }

  /** Appending a child whose parent is not the master keeps the router
      invariant and the top-level routes. */
  lemma AppendKeepsValid(r: State, b: Built, self: NodeId, n: Node)
    requires Valid(r) && 0 < self && AppendsChild(r.tree, b, self, n) && WellFormed(b.tree)
    requires n.parent == Some(self)
    ensures Valid(r.(tree := b.tree)) && Routes(r.(tree := b.tree)) == Routes(r)
  {
  }

  /** `translate(from:to:)`: record a translation unless `from` already
      has one; the tree and the gate are untouched. */
  function Translate(r: State, from: string, to: string): (res: Result<State, Translation.TranslateError>)
    ensures res.Failure? <==> from in r.translation
    ensures res.Failure? ==> res.error == Translation.DuplicateTranslation(from)
    ensures res.Success? ==> res.value.tree == r.tree && res.value.inFlight == r.inFlight
    ensures res.Success? ==> res.value.translation.Keys == r.translation.Keys + {from} && res.value.translation[from] == to
    ensures res.Success? ==> forall k :: k in r.translation ==> res.value.translation[k] == r.translation[k]
  {
    var table :- Translation.Translate(r.translation, from, to);
    Success(r.(translation := table))
  }

  // ---------------------------------------------------------------------
  // Lookup by spec
  // ---------------------------------------------------------------------

  /** `route(forEnum:)`: the top-level route of the spec's name, but only
      when exactly one top-level route carries it. */
  function RouteForEnum(r: State, spec: RouteSpec.Spec): (res: Option<NodeId>)
    requires Valid(r)
    ensures res.Some? <==> ExactlyOne(r.tree, Routes(r), ByName(spec.name))
    ensures res.Some? ==> res.value in Routes(r) && NameOf(r.tree, res.value) == Some(spec.name)
  {
    var found := FilterByName(r.tree, Routes(r), spec.name);
    FilterExactlyOne(r.tree, Routes(r), ByName(spec.name));
    if |found| == 1 then Some(found[0]) else None
  }

  /** Under the sibling-name invariant at most one sibling matches a name. */
  lemma {:induction false} FilterAtMostOne(t: Tree, ids: seq<NodeId>, name: string)
    requires DistinctNames(t, ids)
    ensures |Filter(t, ids, ByName(name))| <= 1
  {
    if |ids| > 0 {
      var rest := ids[1..];
      assert DistinctNames(t, rest) by {
        forall j, k | 0 <= j < k < |rest| && NameOf(t, rest[j]).Some?
          ensures NameOf(t, rest[j]) != NameOf(t, rest[k])
        {
          assert rest[j] == ids[j + 1] && rest[k] == ids[k + 1];
        }
      }
      if Matches(t, ids[0], ByName(name)) {
        forall k | 0 <= k < |rest|
          ensures !Matches(t, rest[k], ByName(name))
        {
          assert rest[k] == ids[k + 1];
        }
        FilterNone(t, rest, ByName(name));
      } else {
        FilterAtMostOne(t, rest, name);
      }
    }
  }

  /** While registration keeps sibling names distinct, the "exactly one"
      test of `route(forEnum:)` agrees with the plain first-match lookup. */
  lemma RouteForEnumIsFirstMatch(r: State, spec: RouteSpec.Spec)
    requires Valid(r) && UniqueNames(r.tree)
    ensures RouteForEnum(r, spec) == RouteForName(r.tree, Master, spec.name)
  {
    FilterAtMostOne(r.tree, Routes(r), spec.name);
  }

  // ---------------------------------------------------------------------
  // Evaluation
  // ---------------------------------------------------------------------

  /** What `evaluate` returns, the router state it leaves, and the session
      it started, if any. */
  datatype Evaluation<P> = Evaluation(handled: bool, router: State, session: Option<Session<P>>)

  /** The matched path ends at a `.redirect` route. */
  predicate EndsAtRedirect(t: Tree, routes: seq<NodeId>)
    requires InTree(t, routes)
  {
    |routes| > 0 && t.nodes[routes[|routes| - 1]].kind == Redirect
  }

  /** When `evaluate` takes components on: nothing is in flight, there is
      something to match, and either every component matched or the match
      ends at a redirect route. */
  predicate Handles(r: State, comps: seq<string>)
    requires Valid(r)
  {
    && !r.inFlight
    && |comps| > 0
    && (|Resolve(r.tree, Master, comps)| == |comps| || EndsAtRedirect(r.tree, Resolve(r.tree, Master, comps)))
  }

  /** A session's steps run a prefix of `routes`, in order. */
  predicate RunsPrefix<P>(s: Session<P>, routes: seq<NodeId>) {
    var steps := s.trace.steps;
    && |steps| <= |routes|
    && forall k :: 0 <= k < |steps| ==> steps[k].node == routes[k]
  }

  /** `evaluate(_:associatedData:)`: refused while a session is in flight;
      otherwise the components are matched from the master route, and a
      session starts when every component matched (and there was at least
      one) or when the matched path ends at a redirect route. */
  function Evaluate<P>(
    r: State, comps: seq<string>, data: Option<P>,
    run: (ActionId, Option<string>, seq<string>, Option<P>) -> ActionOutcome<P>): (e: Evaluation<P>)
    requires Valid(r)
    ensures r.inFlight ==> !e.handled
    ensures e.handled <==> Handles(r, comps)
    ensures e.handled <==> e.session.Some?
    ensures !e.handled ==> e.router == r
    ensures e.handled ==> e.router == r.(inFlight := e.session.value.trace.stop.Trapped?)
    ensures e.handled ==> var s := e.session.value.trace.steps;
      && |s| <= |Resolve(r.tree, Master, comps)|
      && forall k :: 0 <= k < |s| ==> s[k].node == Resolve(r.tree, Master, comps)[k] && s[k].remaining == comps[k + 1..]
    ensures e.handled && |Resolve(r.tree, Master, comps)| == |comps| ==> !e.session.value.trace.stop.Trapped?
    ensures e.handled ==> multiset(e.session.value.events)[Completion] <= 1
    ensures e.handled && |Resolve(r.tree, Master, comps)| < |comps| ==>
      ShortEnd(r.tree, Resolve(r.tree, Master, comps), comps, e.session.value)
    ensures e.handled ==> e.session == SerializedRoute(false, r.tree, Resolve(r.tree, Master, comps), comps, data, run)
  {
    if r.inFlight then Evaluation(false, r, None)
    else
      var routes := Resolve(r.tree, Master, comps);
      var valid := |routes| == |comps|;
      var isRedirect := EndsAtRedirect(r.tree, routes);
      if (valid && |routes| > 0) || isRedirect then
        var session := SerializedRoute(false, r.tree, routes, comps, data, run);
        FullMatchLoggable(r.tree, comps);
        SessionFacts(r.tree, routes, comps, data, run);
        Evaluation(true, r.(inFlight := session.value.gateAfter), session)
      else Evaluation(false, r, None)
  }

  /** Every route of a full match has a name or is a variable route. */
  lemma FullMatchLoggable(t: Tree, comps: seq<string>)
    requires WellFormed(t) && |t.nodes| > 0
    ensures |Resolve(t, Master, comps)| == |comps| ==> Loggable(t, Resolve(t, Master, comps))
  {
    if |Resolve(t, Master, comps)| == |comps| {
      FullMatchAligned(t, Master, comps);
    }
  }

  /** What a session started on a matched path shows of that path. */
  lemma SessionFacts<P>(
    t: Tree, routes: seq<NodeId>, comps: seq<string>, data: Option<P>,
    run: (ActionId, Option<string>, seq<string>, Option<P>) -> ActionOutcome<P>)
    requires InTree(t, routes) && (|routes| == |comps| ==> Loggable(t, routes))
    ensures var s := SerializedRoute(false, t, routes, comps, data, run).value;
      && s.gateAfter == s.trace.stop.Trapped?
      && |s.trace.steps| <= |routes|
      && (forall k :: 0 <= k < |s.trace.steps| ==>
            s.trace.steps[k].node == routes[k] && s.trace.steps[k].remaining == comps[k + 1..])
      && (|routes| == |comps| ==> !s.trace.stop.Trapped?)
      && multiset(s.events)[Completion] <= 1
    ensures |routes| < |comps| ==> ShortEnd(t, routes, comps, SerializedRoute(false, t, routes, comps, data, run).value)
  {
    var trace := Loop(t, routes, comps, 0, data, run);
    var steps := trace.steps;
    forall k | 0 <= k < |steps|
      ensures steps[k].node == routes[k] && steps[k].remaining == comps[k + 1..]
    {
      assert StepAt(t, routes, comps, 0 + k, steps[k], run);
    }
    if |steps| > 0 {
      assert StepAt(t, routes, comps, 0 + (|steps| - 1), steps[|steps| - 1], run);
    }
    if |routes| == |comps| {
      FullMatchNeverTraps(t, routes, comps, data, run);
    } else if |routes| < |comps| {
      ShortSession(t, routes, comps, data, run);
    }
  }

  /** `evaluate(_ routes: [RouteEnum], ...)`: the specs' names are the
      components, so each step is handed the components of the specs after
      its own. */
  function EvaluateSpecs<P>(
    r: State, specs: seq<RouteSpec.Spec>, data: Option<P>,
    run: (ActionId, Option<string>, seq<string>, Option<P>) -> ActionOutcome<P>): (e: Evaluation<P>)
    requires Valid(r)
    ensures e.handled <==> Handles(r, RouteSpec.ComponentsFromRoutes(specs))
    ensures e.handled <==> e.session.Some?
    ensures !e.handled ==> e.router == r
    ensures e.handled ==> |specs| > 0
    ensures e.handled ==> RunsPrefix(e.session.value, Resolve(r.tree, Master, RouteSpec.ComponentsFromRoutes(specs)))
    ensures e.handled ==> var s := e.session.value.trace.steps;
      forall k :: 0 <= k < |s| ==> k < |specs| && RouteSpec.NamesOf(s[k].remaining, specs[k + 1..])
    ensures e.handled && |Resolve(r.tree, Master, RouteSpec.ComponentsFromRoutes(specs))| == |specs| ==>
      var s := e.session.value.trace.steps;
      forall k :: 0 <= k < |s| ==> r.tree.nodes[s[k].node].name == Some(specs[k].name) || r.tree.nodes[s[k].node].kind == Variable
  {
    SpecSteps(r, specs, data, run);
    SpecsAligned(r, specs, data, run);
    Evaluate(r, RouteSpec.ComponentsFromRoutes(specs), data, run)
  }

  lemma {:induction false} SpecSteps<P>(
    r: State, specs: seq<RouteSpec.Spec>, data: Option<P>,
    run: (ActionId, Option<string>, seq<string>, Option<P>) -> ActionOutcome<P>)
    requires Valid(r)
    ensures var comps := RouteSpec.ComponentsFromRoutes(specs); var e := Evaluate(r, comps, data, run);
      e.handled ==> var s := e.session.value.trace.steps;
      forall k :: 0 <= k < |s| ==> k < |specs| && RouteSpec.NamesOf(s[k].remaining, specs[k + 1..])
  {
    var comps := RouteSpec.ComponentsFromRoutes(specs);
    var e := Evaluate(r, comps, data, run);
    if e.handled {
      assert RouteSpec.NamesOf(comps, specs);
      RemainingAreNames(e.session.value.trace.steps, comps, specs);
    }
  }

  /** On a full match of the specs' names, each step's route carries its
      spec's name or is a variable route. */
  lemma SpecsAligned<P>(
    r: State, specs: seq<RouteSpec.Spec>, data: Option<P>,
    run: (ActionId, Option<string>, seq<string>, Option<P>) -> ActionOutcome<P>)
    requires Valid(r)
    ensures var comps := RouteSpec.ComponentsFromRoutes(specs); var e := Evaluate(r, comps, data, run);
      e.handled && |Resolve(r.tree, Master, comps)| == |specs| ==> var s := e.session.value.trace.steps;
      forall k :: 0 <= k < |s| ==> r.tree.nodes[s[k].node].name == Some(specs[k].name) || r.tree.nodes[s[k].node].kind == Variable
  {
    var comps := RouteSpec.ComponentsFromRoutes(specs);
    if |Resolve(r.tree, Master, comps)| == |specs| {
      FullMatchAligned(r.tree, Master, comps);
    }
  }

  /** Steps handed the suffixes of the spec names are handed spec names. */
  lemma RemainingAreNames<P>(steps: seq<Step<P>>, comps: seq<string>, specs: seq<RouteSpec.Spec>)
    requires RouteSpec.NamesOf(comps, specs) && |steps| <= |comps|
    requires forall k :: 0 <= k < |steps| ==> steps[k].remaining == comps[k + 1..]
    ensures forall k :: 0 <= k < |steps| ==> k < |specs| && RouteSpec.NamesOf(steps[k].remaining, specs[k + 1..])
  {
    forall k | 0 <= k < |steps|
      ensures k < |specs| && RouteSpec.NamesOf(steps[k].remaining, specs[k + 1..])
    {
      RouteSpec.NamesOfSuffix(comps, specs, k + 1);
    }
  }

  /** `evaluateURL`: a URL without path components is not handled; the
      payload handed down is the caller's data, or the URL itself when the
      caller gave none. */
  function EvaluateUrl<P>(
    r: State, url: DeepLink.Url, associatedData: Option<P>, urlData: P,
    run: (ActionId, Option<string>, seq<string>, Option<P>) -> ActionOutcome<P>): (e: Evaluation<P>)
    requires Valid(r)
    ensures url.pathComponents.None? ==> !e.handled && e.router == r
    ensures e.handled <==> url.pathComponents.Some? && Handles(r, DeepLink.DeepLinkComponents(url).value)
    ensures e.handled <==> e.session.Some?
    ensures !e.handled ==> e.router == r
    ensures e.handled ==>
      (url.pathComponents.Some? && |Resolve(r.tree, Master, DeepLink.DeepLinkComponents(url).value)| > 0)
    ensures e.handled ==> RunsPrefix(e.session.value, Resolve(r.tree, Master, DeepLink.DeepLinkComponents(url).value))
    ensures e.handled ==> var comps := DeepLink.DeepLinkComponents(url).value; var s := e.session.value.trace.steps;
      forall k :: 0 <= k < |s| ==> s[k].remaining == comps[k + 1..]
    ensures e.handled && e.session.value.trace.steps != [] ==>
      e.session.value.trace.steps[0].dataIn == Some(if associatedData.Some? then associatedData.value else urlData)
  {
    match DeepLink.DeepLinkComponents(url)
    case None => Evaluation(false, r, None)
    case Some(comps) => Evaluate(r, comps, Some(associatedData.GetOr(urlData)), run)
  }

  /** `routes(matchingURL:)`: the matched path of a URL's components, or
      nothing for a URL without path components. */
  function RoutesMatchingUrl(r: State, url: DeepLink.Url): (routes: seq<NodeId>)
    requires Valid(r)
    ensures url.pathComponents.None? ==> routes == []
    ensures url.pathComponents.Some? ==> |routes| <= |DeepLink.DeepLinkComponents(url).value|
    ensures forall k :: 0 <= k < |routes| ==> routes[k] < |r.tree.nodes|
    ensures |routes| > 0 ==> routes[0] in Routes(r)
    ensures forall k :: 0 <= k < |routes| - 1 ==> routes[k + 1] in r.tree.nodes[routes[k]].subRoutes
    ensures url.pathComponents.Some? && |routes| == |DeepLink.DeepLinkComponents(url).value| ==>
      var comps := DeepLink.DeepLinkComponents(url).value;
      forall k :: 0 <= k < |routes| ==> r.tree.nodes[routes[k]].name == Some(comps[k]) || r.tree.nodes[routes[k]].kind == Variable
  {
    match DeepLink.DeepLinkComponents(url)
    case None => []
    case Some(comps) =>
      if |Resolve(r.tree, Master, comps)| == |comps| then
        FullMatchAligned(r.tree, Master, comps);
        Resolve(r.tree, Master, comps)
      else Resolve(r.tree, Master, comps)
  }

  /** A full match on a path without redirect routes, whose actions leave
      the gate alone, runs one step per component, fires the completion
      exactly once, as the last event, and clears the gate. */
  lemma {:induction false} FullMatchCompletes<P>(
    r: State, comps: seq<string>, data: Option<P>,
    run: (ActionId, Option<string>, seq<string>, Option<P>) -> ActionOutcome<P>)
    requires Valid(r) && !r.inFlight && |comps| > 0
    requires |Resolve(r.tree, Master, comps)| == |comps|
    requires forall k :: 0 <= k < |comps| ==> r.tree.nodes[Resolve(r.tree, Master, comps)[k]].kind != Redirect
    requires forall a, v, rest, d :: !run(a, v, rest, d).releasedGate
    ensures var e := Evaluate(r, comps, data, run);
      && e.handled
      && e.session.value.trace.stop.Finished?
      && |e.session.value.trace.steps| == |comps|
      && multiset(e.session.value.events)[Completion] == 1
      && e.session.value.events[|e.session.value.events| - 1] == Completion
      && e.session.value.followUp.None?
      && !e.router.inFlight
  {
    FullMatchLoggable(r.tree, comps);
    RunsToEnd(r.tree, Resolve(r.tree, Master, comps), comps, 0, data, run);
  }

  // ---------------------------------------------------------------------
  // Redirect chains
  // ---------------------------------------------------------------------

  /** The number of completions the sessions fired. */
  function Completions<P>(sessions: seq<Session<P>>): nat {
    if |sessions| == 0 then 0
    else Completions(sessions[..|sessions| - 1]) + multiset(sessions[|sessions| - 1].events)[Completion]
  }

  /** A session's log holds one completion exactly when it finished or
      was aborted. */
  predicate Logged<P>(s: Session<P>) {
    multiset(s.events)[Completion] == if s.trace.stop.Finished? || s.trace.stop.Aborted? then 1 else 0
  }

  /** Every session but the last ended in a redirect that passed `data`
      on, every session's first step was handed `data`, and every log
      accounts for its completion. */
  ghost predicate CarriesData<P>(sessions: seq<Session<P>>, data: Option<P>) {
    && (forall k :: 0 <= k < |sessions| - 1 ==>
          sessions[k].trace.stop.Redirected? &&
          sessions[k].followUp == Some(ScheduledRedirect(sessions[k].trace.stop.target, data)))
    && (forall k :: 0 <= k < |sessions| ==>
          (sessions[k].trace.steps == [] || sessions[k].trace.steps[0].dataIn == data))
    && (forall k :: 0 <= k < |sessions| ==> Logged(sessions[k]))
  }

  /** At most one completion over the whole chain, and one exactly when the
      last session finished or was aborted. */
  predicate CompletesAtMostOnce<P>(sessions: seq<Session<P>>) {
    && Completions(sessions) <= 1
    && (|sessions| > 0 ==>
          (Completions(sessions) == 1 <==>
           sessions[|sessions| - 1].trace.stop.Finished? || sessions[|sessions| - 1].trace.stop.Aborted?))
  }

  /** A chain still waiting on a redirect has fired no completion. */
  lemma PendingNoCompletion<P>(sessions: seq<Session<P>>)
    requires CompletesAtMostOnce(sessions)
    requires |sessions| > 0 && sessions[|sessions| - 1].trace.stop.Redirected?
    ensures Completions(sessions) == 0
  {
  }

  /** `evaluate` followed by the re-evaluations `redirect` schedules: each
      redirect clears the gate and, once the session that scheduled it is
      over, evaluates the target with the payload that session was given.
      The result of a re-evaluation is discarded, as in the source; at most
      `fuel` redirects are followed. A redirect's strings become route specs
      through `toSpecs`, which stands for `routeEnumsFromComponents`; the
      specs are evaluated through their names, as `evaluate(_ routes:)`
      does. */
  method EvaluateWithRedirects<P>(
    r: State, comps: seq<string>, data: Option<P>,
    run: (ActionId, Option<string>, seq<string>, Option<P>) -> ActionOutcome<P>,
    toSpecs: seq<string> -> seq<RouteSpec.Spec>, fuel: nat)
    returns (handled: bool, router: State, sessions: seq<Session<P>>)
    requires Valid(r)
    ensures Valid(router)
    ensures handled <==> Evaluate(r, comps, data, run).handled
    ensures handled <==> |sessions| > 0
    ensures !handled ==> router == r
    ensures |sessions| <= fuel + 1
    ensures handled ==> sessions[0] == Evaluate(r, comps, data, run).session.value
    ensures Chain(r, sessions, data, run, toSpecs)
    ensures handled ==> router == r.(inFlight := sessions[|sessions| - 1].gateAfter)
    ensures handled && sessions[|sessions| - 1].followUp.Some? ==>
      |sessions| == fuel + 1 || Declined(r, sessions[|sessions| - 1], data, run, toSpecs)
    ensures CarriesData(sessions, data)
    ensures CompletesAtMostOnce(sessions)
    ensures |sessions| > 0 && sessions[|sessions| - 1].trace.stop.Redirected? ==> Completions(sessions) == 0
  {
    var first;
    handled, router, first := StartChain(r, comps, data, run);
    if !handled {
      assert first == [];
      return handled, router, first;
    }
    router, sessions := FollowFrom(r, first[0], data, run, toSpecs, fuel);
  }

  /** The chain that starts with the session `first` and follows at most
      `fuel` redirects on `r`. */
  method FollowFrom<P>(
    r: State, first: Session<P>, data: Option<P>,
    run: (ActionId, Option<string>, seq<string>, Option<P>) -> ActionOutcome<P>,
    toSpecs: seq<string> -> seq<RouteSpec.Spec>, fuel: nat)
    returns (router: State, sessions: seq<Session<P>>)
    requires Valid(r) && !r.inFlight
    requires CarriesData([first], data) && CompletesAtMostOnce([first]) && Pending([first], data)
    ensures Valid(router)
    ensures 0 < |sessions| <= fuel + 1 && sessions[0] == first
    ensures Chain(r, sessions, data, run, toSpecs)
    ensures router == r.(inFlight := sessions[|sessions| - 1].gateAfter)
    ensures sessions[|sessions| - 1].followUp.Some? ==>
      |sessions| == fuel + 1 || Declined(r, sessions[|sessions| - 1], data, run, toSpecs)
    ensures CarriesData(sessions, data)
    ensures CompletesAtMostOnce(sessions)
    ensures sessions[|sessions| - 1].trace.stop.Redirected? ==> Completions(sessions) == 0
  {
    ChainSingle(r, first, data, run, toSpecs);
    router, sessions := FollowAll(r, [first], data, run, toSpecs, fuel);
    assert sessions[0] == sessions[..1][0];
    if sessions[|sessions| - 1].trace.stop.Redirected? {
      PendingNoCompletion(sessions);
    }
  }

  /** The components a scheduled redirect is evaluated with: its strings
      turned into specs by `toSpecs`, then the specs' names. */
  function Target<P>(toSpecs: seq<string> -> seq<RouteSpec.Spec>, pending: ScheduledRedirect<P>): seq<string> {
    RouteSpec.ComponentsFromRoutes(toSpecs(pending.components))
  }

  /** `next` is the session that evaluating, on `r`, the redirect `prev`
      scheduled started. */
  ghost predicate Follows<P>(
    r: State, prev: Session<P>, next: Session<P>, data: Option<P>,
    run: (ActionId, Option<string>, seq<string>, Option<P>) -> ActionOutcome<P>,
    toSpecs: seq<string> -> seq<RouteSpec.Spec>)
    requires Valid(r)
  {
    prev.followUp.Some? && Evaluate(r, Target(toSpecs, prev.followUp.value), data, run).session == Some(next)
  }

  /** The redirect `prev` scheduled was not taken on when evaluated on `r`. */
  ghost predicate Declined<P>(
    r: State, prev: Session<P>, data: Option<P>,
    run: (ActionId, Option<string>, seq<string>, Option<P>) -> ActionOutcome<P>,
    toSpecs: seq<string> -> seq<RouteSpec.Spec>)
    requires Valid(r)
  {
    prev.followUp.Some? && !Evaluate(r, Target(toSpecs, prev.followUp.value), data, run).handled
  }

  /** Each session after the first is the one its predecessor's redirect
      started. */
  ghost predicate Chain<P>(
    r: State, sessions: seq<Session<P>>, data: Option<P>,
    run: (ActionId, Option<string>, seq<string>, Option<P>) -> ActionOutcome<P>,
    toSpecs: seq<string> -> seq<RouteSpec.Spec>)
    requires Valid(r)
  {
    forall k :: 0 <= k < |sessions| - 1 ==> Follows(r, sessions[k], sessions[k + 1], data, run, toSpecs)
  }

  lemma ChainSingle<P>(
    r: State, s: Session<P>, data: Option<P>,
    run: (ActionId, Option<string>, seq<string>, Option<P>) -> ActionOutcome<P>,
    toSpecs: seq<string> -> seq<RouteSpec.Spec>)
    requires Valid(r)
    ensures Chain(r, [s], data, run, toSpecs)
  {
  }

  lemma ChainExtend<P>(
    r: State, sessions: seq<Session<P>>, s: Session<P>, data: Option<P>,
    run: (ActionId, Option<string>, seq<string>, Option<P>) -> ActionOutcome<P>,
    toSpecs: seq<string> -> seq<RouteSpec.Spec>)
    requires Valid(r) && |sessions| > 0 && Chain(r, sessions, data, run, toSpecs)
    requires Follows(r, sessions[|sessions| - 1], s, data, run, toSpecs)
    ensures Chain(r, sessions + [s], data, run, toSpecs)
  {
    var all := sessions + [s];
    forall k | 0 <= k < |sessions| - 1
      ensures Follows(r, all[k], all[k + 1], data, run, toSpecs)
    {
      assert all[k] == sessions[k];
      assert all[k + 1] == sessions[k + 1];
    }
    assert all[|sessions| - 1] == sessions[|sessions| - 1];
    assert all[|sessions|] == s;
  }

  lemma SnocAssoc<T>(a: seq<T>, b: seq<T>, x: T)
    ensures (a + b) + [x] == a + (b + [x])
  {
  }

  lemma AppendPrefix<T>(a: seq<T>, b: seq<T>)
    ensures (a + b)[..|a|] == a
  {
  }

  /** Follow scheduled redirects on the router `r`, at most `fuel` of them,
      until the last session scheduled none or its redirect was not
      handled. Between sessions of a chain nothing is in flight, so every
      redirect is evaluated on `r`. */
  method FollowAll<P>(
    r: State, sessions: seq<Session<P>>, data: Option<P>,
    run: (ActionId, Option<string>, seq<string>, Option<P>) -> ActionOutcome<P>,
    toSpecs: seq<string> -> seq<RouteSpec.Spec>, fuel: nat)
    returns (router: State, sessions': seq<Session<P>>)
    requires Valid(r) && !r.inFlight && Chain(r, sessions, data, run, toSpecs)
    requires CarriesData(sessions, data) && CompletesAtMostOnce(sessions) && Pending(sessions, data)
    ensures Valid(router) && CarriesData(sessions', data) && CompletesAtMostOnce(sessions') && Pending(sessions', data)
    ensures |sessions| <= |sessions'| <= |sessions| + fuel
    ensures sessions'[..|sessions|] == sessions
    ensures Chain(r, sessions', data, run, toSpecs)
    ensures router == r.(inFlight := sessions'[|sessions'| - 1].gateAfter)
    ensures sessions'[|sessions'| - 1].followUp.Some? ==>
      |sessions'| == |sessions| + fuel || Declined(r, sessions'[|sessions'| - 1], data, run, toSpecs)
  {
    router, sessions' := r.(inFlight := sessions[|sessions| - 1].gateAfter), sessions;
    var left := fuel;
    ghost var added: seq<Session<P>> := [];
    while left > 0 && sessions'[|sessions'| - 1].followUp.Some?
      invariant |sessions'| == |sessions| + fuel - left && sessions' == sessions + added
      invariant router == r.(inFlight := sessions'[|sessions'| - 1].gateAfter)
      invariant CarriesData(sessions', data) && CompletesAtMostOnce(sessions') && Pending(sessions', data)
      invariant Chain(r, sessions', data, run, toSpecs)
      decreases left
    {
      var followed, next, longer := FollowRedirect(r, sessions', data, run, toSpecs);
      if !followed {
        break;
      }
      SnocAssoc(sessions, added, longer[|sessions'|]);
      router, sessions', added := next, longer, added + [longer[|sessions'|]];
      left := left - 1;
    }
    AppendPrefix(sessions, added);
  }

  /** A redirect the last session scheduled carries the caller's payload. */
  ghost predicate Pending<P>(sessions: seq<Session<P>>, data: Option<P>) {
    |sessions| > 0 &&
    (sessions[|sessions| - 1].followUp.Some? ==>
      sessions[|sessions| - 1].trace.stop.Redirected? &&
      sessions[|sessions| - 1].followUp.value == ScheduledRedirect(sessions[|sessions| - 1].trace.stop.target, data))
  }

  method StartChain<P>(
    r: State, comps: seq<string>, data: Option<P>,
    run: (ActionId, Option<string>, seq<string>, Option<P>) -> ActionOutcome<P>)
    returns (handled: bool, router: State, sessions: seq<Session<P>>)
    requires Valid(r)
    ensures Valid(router)
    ensures handled <==> Evaluate(r, comps, data, run).handled
    ensures handled <==> |sessions| > 0
    ensures !handled ==> router == r
    ensures |sessions| <= 1
    ensures CarriesData(sessions, data) && CompletesAtMostOnce(sessions)
    ensures handled ==> Pending(sessions, data)
    ensures handled ==> sessions == [Evaluate(r, comps, data, run).session.value]
    ensures handled ==> router == r.(inFlight := sessions[0].gateAfter)
    ensures handled ==> !r.inFlight
  {
    var e := Evaluate(r, comps, data, run);
    if !e.handled {
      return false, r, [];
    }
    HandOver(r, comps, data, run);
    var first := e.session.value;
    ChainStart(first, data);
    handled, router, sessions := true, e.router, [first];
  }

  /** One turn of the chain: evaluate the redirect the last session
      scheduled, with the payload it carries: its strings are turned into
      specs, and the specs' names are evaluated. */
  method FollowRedirect<P>(
    r: State, sessions: seq<Session<P>>, data: Option<P>,
    run: (ActionId, Option<string>, seq<string>, Option<P>) -> ActionOutcome<P>,
    toSpecs: seq<string> -> seq<RouteSpec.Spec>)
    returns (followed: bool, router: State, sessions': seq<Session<P>>)
    requires Valid(r) && CarriesData(sessions, data) && CompletesAtMostOnce(sessions)
    requires Pending(sessions, data) && sessions[|sessions| - 1].followUp.Some?
    requires Chain(r, sessions, data, run, toSpecs)
    ensures Valid(router) && CarriesData(sessions', data) && CompletesAtMostOnce(sessions') && Pending(sessions', data)
    ensures Chain(r, sessions', data, run, toSpecs)
    ensures !followed ==> router == r && sessions' == sessions
    ensures followed ==> |sessions'| == |sessions| + 1 && sessions' == sessions + [sessions'[|sessions|]]
    ensures followed ==> Follows(r, sessions[|sessions| - 1], sessions'[|sessions|], data, run, toSpecs)
    ensures !followed ==> Declined(r, sessions[|sessions| - 1], data, run, toSpecs)
    ensures followed ==> router == r.(inFlight := sessions'[|sessions|].gateAfter)
  {
    var pending := sessions[|sessions| - 1].followUp.value;
    var target := Target(toSpecs, pending);
    var next := Evaluate(r, target, pending.data, run);
    if !next.handled {
      return false, r, sessions;
    }
    HandOver(r, target, data, run);
    ChainSnoc(sessions, next.session.value, data);
    ChainExtend(r, sessions, next.session.value, data, run, toSpecs);
    followed, router, sessions' := true, next.router, sessions + [next.session.value];
  }

  /** What the chain needs of one session: its log accounts for its
      completion, its first step got the caller's payload, and a redirect
      it scheduled carries that payload on. */
  lemma HandOver<P>(
    r: State, comps: seq<string>, data: Option<P>,
    run: (ActionId, Option<string>, seq<string>, Option<P>) -> ActionOutcome<P>)
    requires Valid(r) && Evaluate(r, comps, data, run).handled
    ensures var s := Evaluate(r, comps, data, run).session.value;
      && Logged(s)
      && (s.trace.steps == [] || s.trace.steps[0].dataIn == data)
      && (s.followUp.Some? ==>
            s.trace.stop.Redirected? && s.followUp.value == ScheduledRedirect(s.trace.stop.target, data))
  {
    var s := Evaluate(r, comps, data, run).session.value;
    var routes := Resolve(r.tree, Master, comps);
    assert s.trace == Loop(r.tree, routes, comps, 0, data, run);
    assert Threaded(s.trace.steps, data);
  }

  lemma ChainStart<P>(s: Session<P>, data: Option<P>)
    requires Logged(s) && (s.trace.steps == [] || s.trace.steps[0].dataIn == data)
    ensures CarriesData([s], data) && CompletesAtMostOnce([s])
  {
    assert [s][..0] == [];
  }

  /** Appending the session a redirect led to keeps the chain's
      properties. */
  lemma ChainSnoc<P>(sessions: seq<Session<P>>, s: Session<P>, data: Option<P>)
    requires |sessions| > 0 && CarriesData(sessions, data) && CompletesAtMostOnce(sessions)
    requires sessions[|sessions| - 1].trace.stop.Redirected?
    requires sessions[|sessions| - 1].followUp == Some(ScheduledRedirect(sessions[|sessions| - 1].trace.stop.target, data))
    requires Logged(s) && (s.trace.steps == [] || s.trace.steps[0].dataIn == data)
    ensures CarriesData(sessions + [s], data) && CompletesAtMostOnce(sessions + [s])
  {
    var all := sessions + [s];
    assert all[..|all| - 1] == sessions;
    assert forall k :: 0 <= k < |sessions| ==> all[k] == sessions[k];
  }

  // ---------------------------------------------------------------------
  // Scenarios
  // ---------------------------------------------------------------------

  /** The tree of a router with one top-level chain
      Home / <variable> / AddToList / <variable> / DeleteFromList. */
  function ListTree(): (t: Tree)
    ensures WellFormed(t) && |t.nodes| == 6
    ensures forall i :: 0 <= i < 5 ==> t.nodes[i].subRoutes == [i + 1]
    ensures t.nodes[5].subRoutes == []
    ensures t.nodes[1].name == Some("Home") && t.nodes[3].name == Some("AddToList")
    ensures t.nodes[5].name == Some("DeleteFromList")
    ensures t.nodes[2].name == None && t.nodes[2].kind == Variable
    ensures t.nodes[4].name == None && t.nodes[4].kind == Variable
    ensures forall i :: 0 <= i < 6 ==> t.nodes[i].kind != Redirect
    ensures t.nodes[0].parent.None? && t.nodes[1].parent.None?
    ensures forall i :: 2 <= i < 6 ==> t.nodes[i].parent == Some(i - 1)
  {
    var t := Tree([
      Node(Some("MASTER"), Other, None, None, [1]),
      Node(Some("Home"), Other, Some(1), None, [2]),
      Node(None, Variable, Some(2), Some(1), [3]),
      Node(Some("AddToList"), Other, Some(3), Some(2), [4]),
      Node(None, Variable, Some(4), Some(3), [5]),
      Node(Some("DeleteFromList"), Other, Some(5), Some(4), [])]);
    assert forall i :: 0 <= i < |t.nodes| ==> NodeOk(t, i);
    t
  }

  /** The typed chain after its first `n` routes, before registration:
      the master has no subroutes yet, and route `n`, the newest, none. */
  function ListPartial(n: nat): (t: Tree)
    requires 1 <= n <= 5
    ensures |t.nodes| == n + 1 && WellFormed(t)
  {
    var full := ListTree().nodes;
    var t := Tree([full[0].(subRoutes := [])] + full[1..n] + [full[n].(subRoutes := [])]);
    assert forall i :: 0 <= i < n + 1 ==> t.nodes[i].parent == full[i].parent;
    assert forall i :: 1 <= i < n ==> t.nodes[i].subRoutes == [i + 1];
    assert forall i :: 0 <= i < n + 1 ==> NodeOk(t, i);
    t
  }

  /** The nodes the builders of the typed chain append, in order. */
  lemma ListNodes()
    ensures ListTree().nodes[1].(subRoutes := []) == Node(Some("Home"), Other, Some(1), None, [])
    ensures ListTree().nodes[2].(subRoutes := []) == Node(None, Variable, Some(2), Some(1), [])
    ensures ListTree().nodes[3].(subRoutes := []) == Node(Some("AddToList"), Other, Some(3), Some(2), [])
    ensures ListTree().nodes[4].(subRoutes := []) == Node(None, Variable, Some(4), Some(3), [])
    ensures ListTree().nodes[5].(subRoutes := []) == Node(Some("DeleteFromList"), Other, Some(5), Some(4), [])
    ensures Init().tree.nodes == [ListTree().nodes[0].(subRoutes := [])]
  {
  }

  /** The first route, built on a fresh router's tree, is the chain's
      first stage. */
  lemma ListStart(b: Built)
    requires WellFormed(Init().tree)
    requires b == NewRoute(Init().tree, Some("Home"), Other, None, Some(1))
    ensures b.tree == ListPartial(1) && b.id == 1
  {
    ListNodes();
    assert b.tree.nodes == ListPartial(1).nodes;
  }

  /** Appending the chain's next route under its newest one gives the next
      stage. */
  lemma ListGrow(n: nat, b: Built)
    requires 1 <= n < 5
    requires AppendsChild(ListPartial(n), b, n, ListTree().nodes[n + 1].(subRoutes := []))
    ensures b.tree == ListPartial(n + 1) && b.id == n + 1
  {
    var full := ListTree().nodes;
    var t := ListPartial(n + 1);
    forall i | 0 <= i < n + 2
      ensures b.tree.nodes[i] == t.nodes[i]
    {
      if i == n {
        assert full[n].subRoutes == [n + 1];
      }
    }
  }

  /** Registering the chain's last route walks up to Home and makes it the
      router's one top-level route, which completes the list tree. */
  lemma ListRegister()
    requires Valid(State(ListPartial(5), map[], false))
    ensures Register(State(ListPartial(5), map[], false), 5) == Success(State(ListTree(), map[], false))
  {
    var r := State(ListPartial(5), map[], false);
    var full := ListTree().nodes;
    assert Top(r.tree, 5) == Top(r.tree, 4) == Top(r.tree, 3) == Top(r.tree, 2) == Top(r.tree, 1) == 1;
    var res := Register(r, 5);
    assert Routes(res.value) == [1];
    assert res.value.tree.nodes == full by {
      forall i | 0 <= i < 6
        ensures res.value.tree.nodes[i] == full[i]
      {
      }
    }
  }

  /** Every stage of the chain is a valid router tree once it is
      well formed. */
  lemma ListPartialValid(n: nat)
    requires 1 <= n <= 5 && WellFormed(ListPartial(n))
    ensures Valid(State(ListPartial(n), map[], false))
  {
    var full := ListTree().nodes;
    forall i | 0 <= i < n + 1
      ensures ListPartial(n).nodes[i].parent == full[i].parent
    {
    }
  }

  /** Home on a fresh router: the chain's first stage. */
  function ListHome(): (b: Built)
    ensures b.tree == ListPartial(1) && b.id == 1
  {
    var b := NewRoute(Init().tree, Some("Home"), Other, None, Some(1));
    ListStart(b);
    b
  }

  /** `.variable` under the newest route of the chain. */
  function ListVariable(b: Built): (b': Built)
    requires b.id == 1 || b.id == 3
    requires b.tree == ListPartial(b.id)
    ensures b'.tree == ListPartial(b.id + 1) && b'.id == b.id + 1
  {
    ListNodes();
    var v := AddVariable(b.tree, b.id, Some(b.id + 1)).value;
    ListGrow(b.id, v);
    v
  }

  /** `.route(name)` under the newest route of the chain. */
  function ListRoute(b: Built, name: string): (b': Built)
    requires (b.id == 2 && name == "AddToList") || (b.id == 4 && name == "DeleteFromList")
    requires b.tree == ListPartial(b.id)
    ensures b'.tree == ListPartial(b.id + 1) && b'.id == b.id + 1
  {
    ListNodes();
    var v := AddRoute(b.tree, b.id, name, Other, Some(b.id + 1)).value;
    ListGrow(b.id, v);
    v
  }

  /** The router of the typed-route test, built as the test builds it:
      Home on a fresh router, then a variable, AddToList, a variable and
      DeleteFromList, each under the one before, and the last link
      registered. None of the builders fails on the way, and the result is
      the list tree with Home as the only top-level route. */
  function BuildList(): (r: State)
    ensures r == ListRouter()
    ensures Valid(r) && UniqueNames(r.tree) && Routes(r) == [1]
  {
    var home := ListHome();
    var first := ListVariable(home);
    var add := ListRoute(first, "AddToList");
    var second := ListVariable(add);
    var delete := ListRoute(second, "DeleteFromList");
    ListPartialValid(5);
    ListRegister();
    Register(Init().(tree := delete.tree), delete.id).value
  }

  /** The router `BuildList` builds, as a value. */
  function ListRouter(): (r: State)
    ensures Valid(r) && UniqueNames(r.tree) && !r.inFlight
    ensures r.tree == ListTree() && Routes(r) == [1]
  {
    State(ListTree(), map[], false)
  }

  function ListSpecs(): seq<RouteSpec.Spec> {
    [RouteSpec.Spec("Home", Other, None), RouteSpec.Variable("12345"),
     RouteSpec.Spec("AddToList", Other, None), RouteSpec.Variable("XYZ"),
     RouteSpec.Spec("DeleteFromList", Other, None)]
  }

  /** A named step: the one subroute carries the component's name. */
  lemma ListNamedStep(i: nat, name: string)
    requires i < 5 && ListTree().nodes[i + 1].name == Some(name)
    ensures StepFrom(ListTree(), i, name) == Some(i + 1)
  {
    FilterSingleton(ListTree(), i + 1, ByName(name));
  }

  /** A variable step: the one subroute is a variable and has no name. */
  lemma ListVariableStep(i: nat, value: string)
    requires i < 5 && ListTree().nodes[i + 1].name == None && ListTree().nodes[i + 1].kind == Variable
    ensures StepFrom(ListTree(), i, value) == Some(i + 1)
  {
    FilterSingleton(ListTree(), i + 1, ByName(value));
    FilterSingleton(ListTree(), i + 1, ByType(Variable));
  }

  lemma ListComponents()
    ensures RouteSpec.ComponentsFromRoutes(ListSpecs()) == ["Home", "12345", "AddToList", "XYZ", "DeleteFromList"]
  {
    var comps := RouteSpec.ComponentsFromRoutes(ListSpecs());
    assert forall k :: 0 <= k < 5 ==> comps[k] == ListSpecs()[k].name;
  }

  /** Matching a named component from route `i` moves to route `i + 1`. */
  lemma {:induction false} ListResolveNamed(i: nat, name: string, rest: seq<string>)
    requires i < 5 && ListTree().nodes[i + 1].name == Some(name)
    ensures Resolve(ListTree(), i, [name] + rest) == [i + 1] + Resolve(ListTree(), i + 1, rest)
  {
    ListNamedStep(i, name);
    assert ([name] + rest)[1..] == rest;
    ResolveStep(ListTree(), i, [name] + rest);
  }

  /** Matching a value from route `i` takes the variable route `i + 1`. */
  lemma {:induction false} ListResolveVariable(i: nat, value: string, rest: seq<string>)
    requires i < 5 && ListTree().nodes[i + 1].name == None && ListTree().nodes[i + 1].kind == Variable
    ensures Resolve(ListTree(), i, [value] + rest) == [i + 1] + Resolve(ListTree(), i + 1, rest)
  {
    ListVariableStep(i, value);
    assert ([value] + rest)[1..] == rest;
    ResolveStep(ListTree(), i, [value] + rest);
  }

  /** The component lists and paths of the scenario, one entry at a time. */
  lemma ListLiterals()
    ensures ["DeleteFromList"] + [] == ["DeleteFromList"]
    ensures ["XYZ"] + ["DeleteFromList"] == ["XYZ", "DeleteFromList"]
    ensures ["AddToList"] + ["XYZ", "DeleteFromList"] == ["AddToList", "XYZ", "DeleteFromList"]
    ensures ["12345"] + ["AddToList", "XYZ", "DeleteFromList"] == ["12345", "AddToList", "XYZ", "DeleteFromList"]
    ensures ["Home"] + ["12345", "AddToList", "XYZ", "DeleteFromList"] == ["Home", "12345", "AddToList", "XYZ", "DeleteFromList"]
    ensures [3] + ([4] + ([5] + [])) == [3, 4, 5]
    ensures [2] + [3, 4, 5] == [2, 3, 4, 5]
    ensures [1] + [2, 3, 4, 5] == [1, 2, 3, 4, 5]
  {
  }

  lemma ListResolvesTail()
    ensures Resolve(ListTree(), 2, ["AddToList", "XYZ", "DeleteFromList"]) == [3, 4, 5]
  {
    ListLiterals();
    ListResolveNamed(4, "DeleteFromList", []);
    ListResolveVariable(3, "XYZ", ["DeleteFromList"]);
    ListResolveNamed(2, "AddToList", ["XYZ", "DeleteFromList"]);
    assert Resolve(ListTree(), 5, []) == [];
  }

  lemma ListResolvesMid()
    ensures Resolve(ListTree(), 1, ["12345", "AddToList", "XYZ", "DeleteFromList"]) == [2, 3, 4, 5]
  {
    ListLiterals();
    ListResolveVariable(1, "12345", ["AddToList", "XYZ", "DeleteFromList"]);
    ListResolvesTail();
  }

  lemma ListResolves()
    ensures Resolve(ListTree(), Master, ["Home", "12345", "AddToList", "XYZ", "DeleteFromList"]) == [1, 2, 3, 4, 5]
  {
    ListLiterals();
    ListResolveNamed(0, "Home", ["12345", "AddToList", "XYZ", "DeleteFromList"]);
    ListResolvesMid();
  }

  /** Evaluating the typed chain hands each step the value of the variable
      at or right after it: 12345, 12345, XYZ, XYZ, then none. */
  lemma ListVariables<P>(run: (ActionId, Option<string>, seq<string>, Option<P>) -> ActionOutcome<P>)
    requires forall a, v, rest, d :: !run(a, v, rest, d).releasedGate
    ensures var e := EvaluateSpecs(ListRouter(), ListSpecs(), None, run);
      && e.handled
      && |e.session.value.trace.steps| == 5
      && e.session.value.trace.steps[0].variable == Some("12345")
      && e.session.value.trace.steps[1].variable == Some("12345")
      && e.session.value.trace.steps[2].variable == Some("XYZ")
      && e.session.value.trace.steps[3].variable == Some("XYZ")
      && e.session.value.trace.steps[4].variable == None
  {
    ListComponents();
    ListResolves();
    ListLoop(run);
  }

  lemma ListNextVariables(c: seq<string>, p: seq<NodeId>)
    requires c == ["Home", "12345", "AddToList", "XYZ", "DeleteFromList"] && p == [1, 2, 3, 4, 5]
    ensures NextVariable(ListTree(), c, p, 0) == Some("12345")
    ensures NextVariable(ListTree(), c, p, 1) == Some("12345")
    ensures NextVariable(ListTree(), c, p, 2) == Some("XYZ")
    ensures NextVariable(ListTree(), c, p, 3) == Some("XYZ")
    ensures NextVariable(ListTree(), c, p, 4) == None
  {
  }

  /** The loop over the list path runs all five routes, and each step is
      handed the variable `nextVariable` picks for it. */
  lemma ListLoop<P>(run: (ActionId, Option<string>, seq<string>, Option<P>) -> ActionOutcome<P>)
    requires forall a, v, rest, d :: !run(a, v, rest, d).releasedGate
    ensures var s := Loop(ListTree(), [1, 2, 3, 4, 5], ["Home", "12345", "AddToList", "XYZ", "DeleteFromList"], 0, None, run).steps;
      && |s| == 5
      && s[0].variable == Some("12345")
      && s[1].variable == Some("12345")
      && s[2].variable == Some("XYZ")
      && s[3].variable == Some("XYZ")
      && s[4].variable == None
  {
    var t := ListTree();
    var routes := [1, 2, 3, 4, 5];
    var comps := ["Home", "12345", "AddToList", "XYZ", "DeleteFromList"];
    assert Loggable(t, routes);
    RunsToEnd(t, routes, comps, 0, None, run);
    var s := Loop(t, routes, comps, 0, None, run).steps;
    ListNextVariables(comps, routes);
    assert StepAt(t, routes, comps, 0 + 0, s[0], run);
    assert StepAt(t, routes, comps, 0 + 1, s[1], run);
    assert StepAt(t, routes, comps, 0 + 2, s[2], run);
    assert StepAt(t, routes, comps, 0 + 3, s[3], run);
    assert StepAt(t, routes, comps, 0 + 4, s[4], run);
  }

  /** Evaluating the list components runs the five routes with their
      variables, finishes, fires the completion last, and clears the gate. */
  lemma ListSession<P>(run: (ActionId, Option<string>, seq<string>, Option<P>) -> ActionOutcome<P>)
    requires forall a, v, rest, d :: !run(a, v, rest, d).releasedGate
    ensures var e := Evaluate(ListRouter(), ["Home", "12345", "AddToList", "XYZ", "DeleteFromList"], None, run);
      && e.handled
      && e.session.value.trace.stop.Finished?
      && multiset(e.session.value.events)[Completion] == 1
      && e.session.value.events[|e.session.value.events| - 1] == Completion
      && !e.router.inFlight
  {
    var r := ListRouter();
    var comps := ["Home", "12345", "AddToList", "XYZ", "DeleteFromList"];
    ListResolves();
    FullMatchCompletes(r, comps, None, run);
  }

  /** A router whose one top-level route "a" is a redirect route. */
  function RedirectTree(): (t: Tree)
    ensures WellFormed(t) && |t.nodes| == 2
    ensures t.nodes[0].subRoutes == [1] && t.nodes[1].subRoutes == []
    ensures t.nodes[1].name == Some("a") && t.nodes[1].kind == Redirect && t.nodes[1].action == Some(0)
    ensures t.nodes[0].parent.None? && t.nodes[1].parent.None?
  {
    var t := Tree([Node(Some("MASTER"), Other, None, None, [1]), Node(Some("a"), Redirect, Some(0), None, [])]);
    assert NodeOk(t, 0) && NodeOk(t, 1);
    t
  }

  lemma RedirectResolves()
    ensures Resolve(RedirectTree(), Master, ["a", "b"]) == [1]
  {
    var t := RedirectTree();
    FilterSingleton(t, 1, ByName("a"));
    assert StepFrom(t, 0, "a") == Some(1);
    assert StepFrom(t, 1, "b") == None;
    assert ["a", "b"][1..] == ["b"];
    assert ["b"][1..] == [];
    ResolveStep(t, 1, ["b"]);
    ResolveStep(t, 0, ["a", "b"]);
  }

  /** On the path ["a"] with components ["a", "b"], an action on "a" that
      neither redirects nor releases the gate leaves the loop one step in,
      reading past the match. */
  lemma RedirectLoopTraps<P>(data: Option<P>, run: (ActionId, Option<string>, seq<string>, Option<P>) -> ActionOutcome<P>)
    requires forall a, v, rest, d :: run(a, v, rest, d).result == Nil && !run(a, v, rest, d).releasedGate
    ensures var tr := Loop(RedirectTree(), [1], ["a", "b"], 0, data, run);
      tr.stop.Trapped? && |tr.steps| == 1
  {
    var t := RedirectTree();
    var routes := [1];
    var comps := ["a", "b"];
    var out := Execute(t, 1, None, ["b"], data, run);
    assert out == run(0, None, ["b"], data);
    var step := Step(1, None, ["b"], data, out);
    assert !StopsAfter(t, step);
    assert NextVariable(t, comps, routes, 0) == None;
    assert comps[1..] == ["b"];
    assert Loop(t, routes, comps, 1, out.data, run) == Trace([], Trapped, out.data);
    assert Loop(t, routes, comps, 0, data, run) == Trace([step], Trapped, out.data);
  }

  lemma RedirectRouterValid()
    ensures Valid(State(RedirectTree(), map[], false))
  {
  }

  /** The hazard of the redirect test: a redirect route "a" whose action
      declines to redirect, evaluated with ["a", "b"]. The path ["a"] ends at
      a redirect route, so the components are handled, but the loop then
      reads past the matched path: the session traps. In the program that
      trap aborts the process; the gate the model leaves set only marks that
      the session never completed. */
  lemma RedirectCandidateTraps<P>(data: Option<P>, run: (ActionId, Option<string>, seq<string>, Option<P>) -> ActionOutcome<P>)
    requires forall a, v, rest, d :: run(a, v, rest, d).result == Nil && !run(a, v, rest, d).releasedGate
    ensures Valid(State(RedirectTree(), map[], false))
    ensures var e := Evaluate(State(RedirectTree(), map[], false), ["a", "b"], data, run);
      && e.handled
      && e.session.value.trace.stop.Trapped?
      && |e.session.value.trace.steps| == 1
      && e.router.inFlight
  {
    RedirectRouterValid();
    RedirectResolves();
    RedirectLoopTraps(data, run);
  }

  /** A router with the path "a" / <variable> / "r", where "r" is a
      redirect route. */
  function NamelessTree(): (t: Tree)
    ensures WellFormed(t) && |t.nodes| == 4
    ensures t.nodes[0].subRoutes == [1] && t.nodes[1].subRoutes == [2]
    ensures t.nodes[2].subRoutes == [3] && t.nodes[3].subRoutes == []
    ensures t.nodes[1].name == Some("a") && t.nodes[1].kind == Other && t.nodes[1].action == Some(0)
    ensures t.nodes[2].name == None && t.nodes[2].kind == Variable
    ensures t.nodes[3].name == Some("r") && t.nodes[3].kind == Redirect
    ensures t.nodes[0].parent.None? && t.nodes[1].parent.None?
    ensures t.nodes[2].parent == Some(1) && t.nodes[3].parent == Some(2)
  {
    var t := Tree([
      Node(Some("MASTER"), Other, None, None, [1]),
      Node(Some("a"), Other, Some(0), None, [2]),
      Node(None, Variable, Some(1), Some(1), [3]),
      Node(Some("r"), Redirect, Some(2), Some(2), [])]);
    assert NodeOk(t, 0) && NodeOk(t, 1) && NodeOk(t, 2) && NodeOk(t, 3);
    t
  }

  lemma NamelessLiterals()
    ensures ["a", "1", "r", "z"][1..] == ["1", "r", "z"]
    ensures ["1", "r", "z"][1..] == ["r", "z"]
    ensures ["r", "z"][1..] == ["z"]
    ensures ["z"][1..] == []
    ensures [1] + ([2] + ([3] + [])) == [1, 2, 3]
  {
  }

  /** The value "1" takes the variable route, and the trailing "z" is
      skipped: the match is the whole path and ends at the redirect. */
  lemma NamelessResolves()
    ensures Resolve(NamelessTree(), Master, ["a", "1", "r", "z"]) == [1, 2, 3]
  {
    var t := NamelessTree();
    FilterSingleton(t, 1, ByName("a"));
    FilterSingleton(t, 2, ByName("1"));
    FilterSingleton(t, 2, ByType(Variable));
    FilterSingleton(t, 3, ByName("r"));
    assert StepFrom(t, 0, "a") == Some(1);
    assert StepFrom(t, 1, "1") == Some(2);
    assert StepFrom(t, 2, "r") == Some(3);
    assert StepFrom(t, 3, "z") == None;
    NamelessLiterals();
    ResolveStep(t, 3, ["z"]);
    ResolveStep(t, 2, ["r", "z"]);
    ResolveStep(t, 1, ["1", "r", "z"]);
    ResolveStep(t, 0, ["a", "1", "r", "z"]);
  }

  /** On that short match the variable route is handed no value, so its
      log line unwraps nil: the loop runs "a" and traps at index 1, before
      the variable route's action and before the redirect route. */
  lemma NamelessLoopTraps<P>(data: Option<P>, run: (ActionId, Option<string>, seq<string>, Option<P>) -> ActionOutcome<P>)
    requires forall a, v, rest, d :: !run(a, v, rest, d).releasedGate
    ensures var tr := Loop(NamelessTree(), [1, 2, 3], ["a", "1", "r", "z"], 0, data, run);
      tr.stop.Trapped? && |tr.steps| == 1 && tr.steps[0].node == 1
  {
    var t := NamelessTree();
    var routes := [1, 2, 3];
    var comps := ["a", "1", "r", "z"];
    NamelessLiterals();
    var out := Execute(t, 1, None, ["1", "r", "z"], data, run);
    var step := Step(1, None, ["1", "r", "z"], data, out);
    assert !StopsAfter(t, step);
    assert NextVariable(t, comps, routes, 0) == None;
    assert NilLogName(t, routes, comps, 1);
    assert Loop(t, routes, comps, 1, out.data, run) == Trace([], Trapped, out.data);
    assert Loop(t, routes, comps, 0, data, run) == Trace([step], Trapped, out.data);
  }

  /** The crash of the debug log line, end to end: ["a", "1", "r", "z"] is
      handled because its match ends at the redirect route "r", but the
      session traps after one step, so "r" never runs and no redirect is
      scheduled. */
  lemma NamelessShortTraps<P>(data: Option<P>, run: (ActionId, Option<string>, seq<string>, Option<P>) -> ActionOutcome<P>)
    requires forall a, v, rest, d :: !run(a, v, rest, d).releasedGate
    ensures Valid(State(NamelessTree(), map[], false))
    ensures var e := Evaluate(State(NamelessTree(), map[], false), ["a", "1", "r", "z"], data, run);
      && e.handled
      && e.session.value.trace.stop.Trapped?
      && |e.session.value.trace.steps| == 1
      && e.session.value.followUp.None?
  {
    var t := NamelessTree();
    assert forall i :: 0 <= i < 4 ==> t.nodes[i].parent != Some(Master);
    NamelessResolves();
    NamelessLoopTraps(data, run);
  }
}
