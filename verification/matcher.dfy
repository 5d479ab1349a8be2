/** Path resolution: `routes(forComponents:)` of `ELRouter/Route.swift`.

    One pass over the components, no backtracking. At each component the
    current node's subroute of that name wins; failing that, its variable
    subroute; failing both, the component is skipped and matching goes on
    from the same node with the next component. */
module Matcher {
  import opened Wrappers
  import opened RouteTree

  /** The node one component leads to from `current`, if any. */
  function StepFrom(t: Tree, current: NodeId, component: string): (r: Option<NodeId>)
    requires WellFormed(t) && current < |t.nodes|
    ensures r.Some? ==> r.value in t.nodes[current].subRoutes && r.value < |t.nodes|
    ensures r.Some? ==> t.nodes[r.value].name == Some(component) || t.nodes[r.value].kind == Variable
  {
    assert NodeOk(t, current);
    match RouteForName(t, current, component)
    case Some(named) => Some(named)
    case None => RouteForType(t, current, Variable)
  }

  /** The reference definition of the matched path. */
  function Resolve(t: Tree, current: NodeId, comps: seq<string>): (r: seq<NodeId>)
    requires WellFormed(t) && current < |t.nodes|
    ensures |r| <= |comps|
    ensures forall k :: 0 <= k < |r| ==> r[k] < |t.nodes|
    ensures |r| > 0 ==> r[0] in t.nodes[current].subRoutes
    ensures forall k :: 0 <= k < |r| - 1 ==> r[k + 1] in t.nodes[r[k]].subRoutes
    ensures forall k :: 0 <= k < |r| ==>
      t.nodes[r[k]].kind == Variable || (t.nodes[r[k]].name.Some? && t.nodes[r[k]].name.value in comps)
    decreases |comps|
  {
    if |comps| == 0 then []
    else
      match StepFrom(t, current, comps[0])
      case Some(next) =>
        var rest := Resolve(t, next, comps[1..]);
        assert forall k :: (0 <= k < |rest| && t.nodes[rest[k]].name.Some? && t.nodes[rest[k]].name.value in comps[1..]
          ==> t.nodes[rest[k]].name.value in comps);
        [next] + rest
      case None =>
        var rest := Resolve(t, current, comps[1..]);
        assert forall k :: (0 <= k < |rest| && t.nodes[rest[k]].name.Some? && t.nodes[rest[k]].name.value in comps[1..]
          ==> t.nodes[rest[k]].name.value in comps);
        rest
  }

  /** The node matching has reached after consuming `comps` from `current`. */
  function End(t: Tree, current: NodeId, comps: seq<string>): (r: NodeId)
    requires WellFormed(t) && current < |t.nodes|
    ensures r < |t.nodes|
    decreases |comps|
  {
    if |comps| == 0 then current
    else
      match StepFrom(t, current, comps[0])
      case Some(next) => End(t, next, comps[1..])
      case None => End(t, current, comps[1..])
  }

  /** Matching a concatenation is matching the first part, then matching
      the second part from wherever the first part left off. */
  lemma {:induction false} ResolveAppend(t: Tree, current: NodeId, a: seq<string>, b: seq<string>)
    requires WellFormed(t) && current < |t.nodes|
    ensures Resolve(t, current, a + b) == Resolve(t, current, a) + Resolve(t, End(t, current, a), b)
    decreases |a|
  {
    if |a| == 0 {
      assert a + b == b;
    } else {
      assert (a + b)[0] == a[0];
      assert (a + b)[1..] == a[1..] + b;
      match StepFrom(t, current, a[0])
      case Some(next) => ResolveAppend(t, next, a[1..], b);
      case None => ResolveAppend(t, current, a[1..], b);
    }
  }

  /** Hence a longer input never loses what a shorter one matched. */
  lemma {:induction false} ResolvePrefix(t: Tree, current: NodeId, a: seq<string>, b: seq<string>)
    requires WellFormed(t) && current < |t.nodes|
    ensures Resolve(t, current, a) <= Resolve(t, current, a + b)
  {
    ResolveAppend(t, current, a, b);
  }

  /** A subroute named like the component always wins over the variable
      subroute; the first such subroute is taken. */
  lemma {:induction false} LiteralPrecedence(t: Tree, current: NodeId, comps: seq<string>, k: nat)
    requires WellFormed(t) && current < |t.nodes|
    requires |comps| > 0
    requires k < |t.nodes[current].subRoutes| && NameOf(t, t.nodes[current].subRoutes[k]) == Some(comps[0])
    ensures var r := Resolve(t, current, comps);
      && |r| > 0
      && t.nodes[r[0]].name == Some(comps[0])
      && IsFirstMatch(t, t.nodes[current].subRoutes, r[0], ByName(comps[0]))
      && r[1..] == Resolve(t, r[0], comps[1..])
  {
    assert Matches(t, t.nodes[current].subRoutes[k], ByName(comps[0]));
  }

  /** With no subroute of that name, the variable subroute takes the
      component, even when it is the last one. */
  lemma {:induction false} VariableFallback(t: Tree, current: NodeId, comps: seq<string>, v: nat)
    requires WellFormed(t) && current < |t.nodes|
    requires |comps| > 0
    requires forall k :: 0 <= k < |t.nodes[current].subRoutes| ==> NameOf(t, t.nodes[current].subRoutes[k]) != Some(comps[0])
    requires v < |t.nodes[current].subRoutes| && Matches(t, t.nodes[current].subRoutes[v], ByType(Variable))
    ensures var r := Resolve(t, current, comps);
      && |r| > 0
      && t.nodes[r[0]].kind == Variable
      && IsFirstMatch(t, t.nodes[current].subRoutes, r[0], ByType(Variable))
      && r[1..] == Resolve(t, r[0], comps[1..])
    ensures |comps| == 1 ==> |Resolve(t, current, comps)| == 1
  {
    var subs := t.nodes[current].subRoutes;
    assert NodeOk(t, current);
    assert forall x :: x in subs ==> NameOf(t, x) != Some(comps[0]);
    assert RouteForName(t, current, comps[0]).None?;
  }

  /** A component that neither names a subroute nor meets a variable
      subroute is dropped and matching stays at the same node. */
  lemma {:induction false} SkipUnmatched(t: Tree, current: NodeId, comps: seq<string>)
    requires WellFormed(t) && current < |t.nodes|
    requires |comps| > 0
    requires forall k :: 0 <= k < |t.nodes[current].subRoutes| ==>
      NameOf(t, t.nodes[current].subRoutes[k]) != Some(comps[0]) && !Matches(t, t.nodes[current].subRoutes[k], ByType(Variable))
    ensures Resolve(t, current, comps) == Resolve(t, current, comps[1..])
    ensures |Resolve(t, current, comps)| < |comps|
  {
    var subs := t.nodes[current].subRoutes;
    assert forall x :: x in subs ==> NameOf(t, x) != Some(comps[0]);
    assert RouteForName(t, current, comps[0]).None?;
  }

  /** A full match lines up: the k-th matched node either carries the k-th
      component as its name or is a variable node standing for it. */
  lemma {:induction false} FullMatchAligned(t: Tree, current: NodeId, comps: seq<string>)
    requires WellFormed(t) && current < |t.nodes|
    requires |Resolve(t, current, comps)| == |comps|
    ensures forall k :: 0 <= k < |comps| ==>
      var n := t.nodes[Resolve(t, current, comps)[k]];
      n.name == Some(comps[k]) || n.kind == Variable
    decreases |comps|
  {
    if |comps| > 0 {
      var r := Resolve(t, current, comps);
      assert StepFrom(t, current, comps[0]).Some?;
      var next := StepFrom(t, current, comps[0]).value;
      FullMatchAligned(t, next, comps[1..]);
      forall k | 0 <= k < |comps|
        ensures t.nodes[r[k]].name == Some(comps[k]) || t.nodes[r[k]].kind == Variable
      {
        if k > 0 {
          assert r[k] == Resolve(t, next, comps[1..])[k - 1];
          assert comps[k] == comps[1..][k - 1];
        }
      }
    }
  }

  lemma {:induction false} ResolveStep(t: Tree, current: NodeId, comps: seq<string>)
    requires WellFormed(t) && current < |t.nodes| && |comps| > 0
    ensures StepFrom(t, current, comps[0]).Some? ==>
      Resolve(t, current, comps) == [StepFrom(t, current, comps[0]).value] + Resolve(t, StepFrom(t, current, comps[0]).value, comps[1..])
    ensures StepFrom(t, current, comps[0]).None? ==> Resolve(t, current, comps) == Resolve(t, current, comps[1..])
  {
  }

  /** One turn of the source loop keeps "what is collected, followed by
      what the rest would match, is the whole match". */
  lemma {:induction false} LoopStep(t: Tree, start: NodeId, comps: seq<string>, i: nat, results: seq<NodeId>, current: NodeId)
    requires WellFormed(t) && start < |t.nodes| && current < |t.nodes| && i < |comps|
    requires results + Resolve(t, current, comps[i..]) == Resolve(t, start, comps)
    ensures StepFrom(t, current, comps[i]).Some? ==>
      var x := StepFrom(t, current, comps[i]).value;
      (results + [x]) + Resolve(t, x, comps[i + 1..]) == Resolve(t, start, comps)
    ensures StepFrom(t, current, comps[i]).None? ==>
      results + Resolve(t, current, comps[i + 1..]) == Resolve(t, start, comps)
  {
    var suffix := comps[i..];
    assert suffix[0] == comps[i] && suffix[1..] == comps[i + 1..];
    ResolveStep(t, current, suffix);
  }

  /** `routes(forComponents:)` as the source writes it: a loop that appends
      one node per matched component. */
  method RoutesForComponents(t: Tree, start: NodeId, comps: seq<string>) returns (results: seq<NodeId>)
    requires WellFormed(t) && start < |t.nodes|
    ensures results == Resolve(t, start, comps)
    ensures |results| <= |comps|
  {
    results := [];
    var current: NodeId := start;
    for i := 0 to |comps|
      invariant current < |t.nodes|
      invariant results + Resolve(t, current, comps[i..]) == Resolve(t, start, comps)
    {
      LoopStep(t, start, comps, i, results, current);
      var named := RouteForName(t, current, comps[i]);
      if named.Some? {
        assert StepFrom(t, current, comps[i]) == named;
        results := results + [named.value];
        current := named.value;
      } else {
        var variable := RouteForType(t, current, Variable);
        assert StepFrom(t, current, comps[i]) == variable;
        if variable.Some? {
          results := results + [variable.value];
          current := variable.value;
        }
      }
    }
    assert comps[|comps|..] == [];
  }

  // ---------------------------------------------------------------------
  // The unit-test trees, checked against the definition.
  // ---------------------------------------------------------------------

  /** "variableTest" -> "walmart.com" -> variable -> "foo". */
  function SampleTree(): (t: Tree)
    ensures WellFormed(t) && |t.nodes| == 4
    ensures t.nodes[0].subRoutes == [1] && t.nodes[1].subRoutes == [2]
    ensures t.nodes[2].subRoutes == [3] && t.nodes[3].subRoutes == []
  {
    var t := Tree([
      Node(Some("variableTest"), Other, None, None, [1]),
      Node(Some("walmart.com"), Other, None, Some(0), [2]),
      Node(None, Variable, None, Some(1), [3]),
      Node(Some("foo"), Other, None, Some(2), [])]);
    assert forall i :: 0 <= i < 4 ==> NodeOk(t, i);
    t
  }

  lemma SampleSteps()
    ensures StepFrom(SampleTree(), 0, "walmart.com") == Some(1)
    ensures forall c :: StepFrom(SampleTree(), 1, c) == Some(2)
    ensures StepFrom(SampleTree(), 2, "foo") == Some(3)
    ensures StepFrom(SampleTree(), 2, "b") == None
    ensures forall c :: StepFrom(SampleTree(), 3, c) == None
  {
    var t := SampleTree();
    FilterSingleton(t, 1, ByName("walmart.com"));
    FilterSingleton(t, 3, ByName("foo"));
    FilterSingleton(t, 3, ByName("b"));
    FilterSingleton(t, 3, ByType(Variable));
    forall c
      ensures StepFrom(t, 1, c) == Some(2)
    {
      FilterSingleton(t, 2, ByName(c));
      FilterSingleton(t, 2, ByType(Variable));
    }
  }

  lemma SampleLiterals()
    ensures ["walmart.com", "12345", "foo"][1..] == ["12345", "foo"] && ["12345", "foo"][1..] == ["foo"]
    ensures ["walmart.com", "12345", "b"][1..] == ["12345", "b"] && ["12345", "b"][1..] == ["b"]
    ensures ["walmart.com", "12345"][1..] == ["12345"] && ["walmart.com", "foo"][1..] == ["foo"]
    ensures [3] + [] == [3] && [2] + [3] == [2, 3] && [1] + [2, 3] == [1, 2, 3]
    ensures [2] + [] == [2] && [1] + [2] == [1, 2]
  {
  }

  /** A full literal/variable/literal match. */
  lemma SampleFullMatch()
    ensures Resolve(SampleTree(), 0, ["walmart.com", "12345", "foo"]) == [1, 2, 3]
  {
    var t := SampleTree();
    SampleSteps();
    SampleLiterals();
    ResolveStep(t, 2, ["foo"]);
    ResolveStep(t, 1, ["12345", "foo"]);
    ResolveStep(t, 0, ["walmart.com", "12345", "foo"]);
  }

  /** A variable subroute takes the trailing component. */
  lemma SampleTrailingVariable()
    ensures Resolve(SampleTree(), 0, ["walmart.com", "12345"]) == [1, 2]
  {
    var t := SampleTree();
    SampleSteps();
    SampleLiterals();
    ResolveStep(t, 1, ["12345"]);
    ResolveStep(t, 0, ["walmart.com", "12345"]);
  }

  /** No backtracking: the unmatched "b" after the variable is dropped and
      the match is the two nodes before it, not nothing. */
  lemma SampleNoBacktrack()
    ensures Resolve(SampleTree(), 0, ["walmart.com", "12345", "b"]) == [1, 2]
  {
    var t := SampleTree();
    SampleSteps();
    SampleLiterals();
    ResolveStep(t, 2, ["b"]);
    ResolveStep(t, 1, ["12345", "b"]);
    ResolveStep(t, 0, ["walmart.com", "12345", "b"]);
  }

  /** A node without subroutes matches nothing. */
  lemma SampleChildless()
    ensures Resolve(SampleTree(), 3, ["walmart.com", "foo"]) == []
  {
    var t := SampleTree();
    SampleSteps();
    SampleLiterals();
    ResolveStep(t, 3, ["foo"]);
    ResolveStep(t, 3, ["walmart.com", "foo"]);
  }
}
