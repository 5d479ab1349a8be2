/** The dispatch loop of `serializedRoute` (`ELRouter/Router.swift`), run
    sequentially.

    The source runs the loop on a background queue, runs each action on the
    main queue and hands a spinlock back and forth with the navigation
    swizzles. Seen from one evaluation, all of that amounts to: the steps run
    one after the other in path order, each sees the payload the previous one
    left, and the loop stops at a redirect or when the in-flight gate has been
    released under it. That order, the gate and the completion/redirect
    outcome are what this module keeps. */
module Dispatch {
  import opened Wrappers
  import opened RouteTree

  /** What an action closure returned (`Any?`), as far as the engine looks
      at it: nothing, a list of strings (a redirect target), or some other
      object. */
  datatype Value = Nil | Strings(items: seq<string>) | Object(handle: nat)

  /** What running one action closure did: its return value, the payload it
      left in `associatedData`, and whether it released the in-flight gate
      itself (an action may call `Router.redirect`, which clears the gate). */
  datatype ActionOutcome<P> = ActionOutcome(result: Value, data: Option<P>, releasedGate: bool)

  /** One executed step of the chain. */
  datatype Step<P> = Step(
    node: NodeId,
    variable: Option<string>,
    remaining: seq<string>,
    dataIn: Option<P>,
    outcome: ActionOutcome<P>)

  /** Why the loop stopped. `Trapped` is a Swift runtime trap, which
      aborts the process, so nothing follows it: either the index-out-of-range
      read of `routes[i]` when the matched path is shorter than the
      components, or the force-unwrap in a step's debug log line (see
      `NilLogName`). */
  datatype Stop = Finished | Redirected(target: seq<string>) | Aborted | Trapped

  datatype Trace<P> = Trace(steps: seq<Step<P>>, stop: Stop, data: Option<P>)

  /** What the engine and the world outside it can observe of one session,
      in order. */
  datatype Event = GateSet | Ran(index: nat) | GateCleared | RedirectScheduled(target: seq<string>) | Completion

  /** A re-evaluation scheduled by a redirect. */
  datatype ScheduledRedirect<P> = ScheduledRedirect(components: seq<string>, data: Option<P>)

  datatype Session<P> = Session(trace: Trace<P>, events: seq<Event>, followUp: Option<ScheduledRedirect<P>>, gateAfter: bool)

  predicate InTree(t: Tree, routes: seq<NodeId>) {
    forall k :: 0 <= k < |routes| ==> routes[k] < |t.nodes|
  }

  /** `Route.execute` without a navigator: a route without an action yields
      nil and leaves the payload alone; otherwise the action's own outcome is
      returned as is. (The navigator branches are UIKit glue.) */
  function Execute<P>(
    t: Tree, node: NodeId, variable: Option<string>, remaining: seq<string>, data: Option<P>,
    run: (ActionId, Option<string>, seq<string>, Option<P>) -> ActionOutcome<P>): (r: ActionOutcome<P>)
    requires node < |t.nodes|
    ensures t.nodes[node].action.None? ==> r.result == Nil && r.data == data && !r.releasedGate
  {
    match t.nodes[node].action
    case None => ActionOutcome(Nil, data, false)
    case Some(a) => run(a, variable, remaining, data)
  }

  /** `nextVariable`: the variable value handed to step `i`. Only a full
      match gets one; a variable step gets its own component, and a step
      just before a variable step gets that step's component. */
  function NextVariable(t: Tree, comps: seq<string>, routes: seq<NodeId>, i: nat): (r: Option<string>)
    requires InTree(t, routes)
    ensures r.Some? ==> |comps| == |routes| && i < |comps|
    ensures r.Some? ==>
      (t.nodes[routes[i]].kind == Variable && r.value == comps[i]) ||
      (i + 1 < |comps| && t.nodes[routes[i + 1]].kind == Variable && r.value == comps[i + 1])
    ensures |comps| == |routes| && i < |comps| && t.nodes[routes[i]].kind == Variable ==> r == Some(comps[i])
    ensures |comps| == |routes| && i + 1 < |comps| && t.nodes[routes[i + 1]].kind == Variable ==> r.Some?
    ensures r.None? && |comps| == |routes| && i < |comps| ==>
      t.nodes[routes[i]].kind != Variable && (i + 1 < |comps| ==> t.nodes[routes[i + 1]].kind != Variable)
  {
    if !(|comps| > i && |routes| > i && |comps| == |routes|) then None
    else if t.nodes[routes[i]].kind == Variable then Some(comps[i])
    else if |comps| > i + 1 && t.nodes[routes[i + 1]].kind == Variable then Some(comps[i + 1])
    else None
  }

  /** The debug log lines around step `j` name its route as
      `(route.name ?? variable)!`. The log call builds its message whatever
      the log level, so a route without a name that is handed no variable
      unwraps nil there, before its action runs. */
  predicate NilLogName(t: Tree, routes: seq<NodeId>, comps: seq<string>, j: nat)
    requires InTree(t, routes)
  {
    j < |routes| && t.nodes[routes[j]].name.None? && NextVariable(t, comps, routes, j).None?
  }

  /** The loop traps at index `j`: it reads past the matched path, or the
      log line of step `j` unwraps nil. */
  predicate TrapsAt(t: Tree, routes: seq<NodeId>, comps: seq<string>, j: nat)
    requires InTree(t, routes)
  {
    |routes| <= j || NilLogName(t, routes, comps, j)
  }

  /** Every route of the path has a name or is a variable route, as every
      route a match picks does. */
  predicate Loggable(t: Tree, routes: seq<NodeId>)
    requires InTree(t, routes)
  {
    forall k :: 0 <= k < |routes| ==> t.nodes[routes[k]].name.Some? || t.nodes[routes[k]].kind == Variable
  }

  /** The step ends the session as a redirect: a `.redirect` route whose
      action returned a list of strings. */
  predicate IsRedirectStep<P>(t: Tree, s: Step<P>) {
    s.node < |t.nodes| && t.nodes[s.node].kind == Redirect && s.outcome.result.Strings?
  }

  /** The loop stops after this step. */
  predicate StopsAfter<P>(t: Tree, s: Step<P>) {
    IsRedirectStep(t, s) || s.outcome.releasedGate
  }

  /** `s` is what step `j` of the loop does: it runs `routes[j]`, whose
      log line did not trap, with the components after `j` and the variable
      `nextVariable` picks, and its outcome is that route's `execute` on the
      payload it was handed. */
  ghost predicate StepAt<P>(
    t: Tree, routes: seq<NodeId>, comps: seq<string>, j: nat, s: Step<P>,
    run: (ActionId, Option<string>, seq<string>, Option<P>) -> ActionOutcome<P>)
    requires InTree(t, routes)
  {
    && j < |routes| && j < |comps|
    && !NilLogName(t, routes, comps, j)
    && s.node == routes[j]
    && s.remaining == comps[j + 1..]
    && s.variable == NextVariable(t, comps, routes, j)
    && s.outcome == Execute(t, routes[j], s.variable, s.remaining, s.dataIn, run)
  }

  /** Each step is handed the payload the previous step left, the first
      step the session's payload. */
  ghost predicate Threaded<P>(steps: seq<Step<P>>, data: Option<P>) {
    && (|steps| > 0 ==> steps[0].dataIn == data)
    && (forall k :: 0 <= k < |steps| - 1 ==> steps[k + 1].dataIn == steps[k].outcome.data)
  }

  function FinalData<P>(steps: seq<Step<P>>, data: Option<P>): Option<P> {
    if |steps| == 0 then data else steps[|steps| - 1].outcome.data
  }

  /** Only the last step may stop the loop. */
  predicate NoEarlyStop<P>(t: Tree, steps: seq<Step<P>>) {
    forall k :: 0 <= k < |steps| - 1 ==> !StopsAfter(t, steps[k])
  }

  /** How the trace's stop reason relates to its steps, for a loop that
      started at index `i`. */
  predicate StopExplained<P>(t: Tree, routes: seq<NodeId>, comps: seq<string>, i: nat, r: Trace<P>)
    requires InTree(t, routes)
  {
    var n := |r.steps|;
    && (r.stop.Finished? ==> i + n == |comps| && (n > 0 ==> !StopsAfter(t, r.steps[n - 1])))
    && (r.stop.Trapped? ==> i + n < |comps| && TrapsAt(t, routes, comps, i + n) && (n > 0 ==> !StopsAfter(t, r.steps[n - 1])))
    && (r.stop.Redirected? ==>
          n > 0 && IsRedirectStep(t, r.steps[n - 1]) && r.stop.target == r.steps[n - 1].outcome.result.items)
    && (r.stop.Aborted? ==>
          n > 0 && !IsRedirectStep(t, r.steps[n - 1]) && r.steps[n - 1].outcome.releasedGate)
  }

  /** The loop of `serializedRoute` from index `i` on. As written it runs
      over the indices of `comps`, reads `routes[i]`, and logs the route's
      name before running it. */
  function Loop<P>(
    t: Tree, routes: seq<NodeId>, comps: seq<string>, i: nat, data: Option<P>,
    run: (ActionId, Option<string>, seq<string>, Option<P>) -> ActionOutcome<P>): (r: Trace<P>)
    requires InTree(t, routes) && i <= |comps|
    ensures i + |r.steps| <= |comps|
    ensures forall k :: 0 <= k < |r.steps| ==> StepAt(t, routes, comps, i + k, r.steps[k], run)
    ensures Threaded(r.steps, data)
    ensures r.data == FinalData(r.steps, data)
    ensures NoEarlyStop(t, r.steps)
    ensures StopExplained(t, routes, comps, i, r)
    decreases |comps| - i
  {
    if i == |comps| then Trace([], Finished, data)
    else if i >= |routes| then Trace([], Trapped, data)
    else if NilLogName(t, routes, comps, i) then Trace([], Trapped, data)
    else
      var variable := NextVariable(t, comps, routes, i);
      var remaining := comps[i + 1..];
      var out := Execute(t, routes[i], variable, remaining, data, run);
      var step := Step(routes[i], variable, remaining, data, out);
      if IsRedirectStep(t, step) then Trace([step], Redirected(out.result.items), out.data)
      else if out.releasedGate then Trace([step], Aborted, out.data)
      else
        var rest := Loop(t, routes, comps, i + 1, out.data, run);
        ConsStepAt(t, routes, comps, i, step, rest.steps, run);
        ConsThreaded(step, rest.steps, data);
        ConsNoEarlyStop(t, step, rest.steps);
        ConsStopExplained(t, routes, comps, i, step, rest);
        Trace([step] + rest.steps, rest.stop, rest.data)
  }

  lemma ConsStepAt<P>(
    t: Tree, routes: seq<NodeId>, comps: seq<string>, i: nat, step: Step<P>, rest: seq<Step<P>>,
    run: (ActionId, Option<string>, seq<string>, Option<P>) -> ActionOutcome<P>)
    requires InTree(t, routes)
    requires StepAt(t, routes, comps, i, step, run)
    requires forall k :: 0 <= k < |rest| ==> StepAt(t, routes, comps, i + 1 + k, rest[k], run)
    ensures forall k :: 0 <= k < |[step] + rest| ==> StepAt(t, routes, comps, i + k, ([step] + rest)[k], run)
  {
    var steps := [step] + rest;
    forall k | 0 <= k < |steps|
      ensures StepAt(t, routes, comps, i + k, steps[k], run)
    {
      if k > 0 {
        assert steps[k] == rest[k - 1];
        assert StepAt(t, routes, comps, i + 1 + (k - 1), rest[k - 1], run);
      }
    }
  }

  lemma ConsThreaded<P>(step: Step<P>, rest: seq<Step<P>>, data: Option<P>)
    requires step.dataIn == data && Threaded(rest, step.outcome.data)
    ensures Threaded([step] + rest, data)
    ensures FinalData([step] + rest, data) == FinalData(rest, step.outcome.data)
  {
    var steps := [step] + rest;
    forall k | 0 <= k < |steps| - 1
      ensures steps[k + 1].dataIn == steps[k].outcome.data
    {
      if k > 0 {
        assert steps[k] == rest[k - 1];
      }
    }
  }

  lemma ConsNoEarlyStop<P>(t: Tree, step: Step<P>, rest: seq<Step<P>>)
    requires !StopsAfter(t, step) && NoEarlyStop(t, rest)
    ensures NoEarlyStop(t, [step] + rest)
  {
    var steps := [step] + rest;
    forall k | 0 <= k < |steps| - 1
      ensures !StopsAfter(t, steps[k])
    {
      if k > 0 {
        assert steps[k] == rest[k - 1];
      }
    }
  }

  lemma ConsStopExplained<P>(t: Tree, routes: seq<NodeId>, comps: seq<string>, i: nat, step: Step<P>, rest: Trace<P>)
    requires InTree(t, routes) && !StopsAfter(t, step)
    requires StopExplained(t, routes, comps, i + 1, rest)
    ensures StopExplained(t, routes, comps, i, Trace([step] + rest.steps, rest.stop, rest.data))
  {
    var steps := [step] + rest.steps;
    if |rest.steps| > 0 {
      assert steps[|steps| - 1] == rest.steps[|rest.steps| - 1];
    }
  }

  /** The events after the last step, by how the loop stopped. */
  function Epilogue(stop: Stop): seq<Event> {
    match stop
    case Finished => [GateCleared, Completion]
    case Aborted => [GateCleared, Completion]
    case Redirected(target) => [GateCleared, RedirectScheduled(target), GateCleared]
    case Trapped => []
  }

  function RanEvents(n: nat): (r: seq<Event>)
    ensures |r| == n && forall k :: 0 <= k < n ==> r[k] == Ran(k)
  {
    if n == 0 then [] else RanEvents(n - 1) + [Ran(n - 1)]
  }

  /** The epilogue fires the completion once, right after clearing the
      gate, exactly when the loop finished or was aborted. */
  lemma EpilogueCompletion(stop: Stop)
    ensures multiset(Epilogue(stop))[Completion] == if stop.Finished? || stop.Aborted? then 1 else 0
    ensures stop.Finished? || stop.Aborted? ==> Epilogue(stop) == [GateCleared, Completion]
  {
    match stop
    case Finished =>
      assert multiset(Epilogue(stop)) == multiset{GateCleared, Completion};
    case Aborted =>
      assert multiset(Epilogue(stop)) == multiset{GateCleared, Completion};
    case Redirected(target) =>
      assert multiset(Epilogue(stop)) == multiset{GateCleared, RedirectScheduled(target), GateCleared};
    case Trapped =>
  }

  /** The event log of a session that ran `n` steps and stopped for `stop`. */
  function Events(n: nat, stop: Stop): (r: seq<Event>)
    ensures |r| > n && r[0] == GateSet
    ensures forall k :: 0 <= k < n ==> r[k + 1] == Ran(k)
    ensures multiset(r)[Completion] == if stop.Finished? || stop.Aborted? then 1 else 0
    ensures multiset(r)[Completion] > 0 ==> r[|r| - 1] == Completion && r[|r| - 2] == GateCleared
  {
    EventsOrder(n, Epilogue(stop));
    EventsCompletion(n, stop);
    [GateSet] + RanEvents(n) + Epilogue(stop)
  }

  lemma {:induction false} EventsOrder(n: nat, tail: seq<Event>)
    ensures var r := [GateSet] + RanEvents(n) + tail;
      |r| > n && r[0] == GateSet && forall k :: 0 <= k < n ==> r[k + 1] == Ran(k)
  {
    var ran := RanEvents(n);
    var r := [GateSet] + ran + tail;
    forall k | 0 <= k < n
      ensures r[k + 1] == Ran(k)
    {
      assert r[k + 1] == ran[k];
    }
  }

  lemma {:induction false} EventsCompletion(n: nat, stop: Stop)
    ensures var r := [GateSet] + RanEvents(n) + Epilogue(stop);
      && multiset(r)[Completion] == (if stop.Finished? || stop.Aborted? then 1 else 0)
      && (multiset(r)[Completion] > 0 ==> r[|r| - 1] == Completion && r[|r| - 2] == GateCleared)
  {
    var head := [GateSet] + RanEvents(n);
    CompletionNotRan(n);
    assert multiset(head)[Completion] == 0 by {
      assert multiset(head) == multiset([GateSet]) + multiset(RanEvents(n));
    }
    EpilogueCompletion(stop);
    assert multiset(head + Epilogue(stop)) == multiset(head) + multiset(Epilogue(stop));
  }

  /** Closing a session after its loop: a redirect is scheduled with the
      caller's original payload, the completion fires only after the gate
      is cleared, and only a trapped loop leaves the gate set (a marker of
      the abort: the program has no state after the trap). */
  function Close<P>(trace: Trace<P>, data: Option<P>): (s: Session<P>)
    ensures s.trace == trace
    ensures |s.events| > |trace.steps| && s.events[0] == GateSet
    ensures forall k :: 0 <= k < |trace.steps| ==> s.events[k + 1] == Ran(k)
    ensures multiset(s.events)[Completion] == (if trace.stop.Finished? || trace.stop.Aborted? then 1 else 0)
    ensures multiset(s.events)[Completion] > 0 ==>
      s.events[|s.events| - 1] == Completion && s.events[|s.events| - 2] == GateCleared
    ensures s.followUp.Some? <==> trace.stop.Redirected?
    ensures s.followUp.Some? ==> s.followUp.value == ScheduledRedirect(trace.stop.target, data)
    ensures s.gateAfter <==> trace.stop.Trapped?
  {
    var followUp := if trace.stop.Redirected? then Some(ScheduledRedirect(trace.stop.target, data)) else None;
    Session(trace, Events(|trace.steps|, trace.stop), followUp, trace.stop.Trapped?)
  }

  /** `serializedRoute`: refuses to start while a session is in flight;
      otherwise sets the gate, runs the loop, and then either schedules the
      redirect (with the payload the caller passed in, not the one the steps
      left behind) or clears the gate and fires the completion. */
  function SerializedRoute<P>(
    inFlight: bool, t: Tree, routes: seq<NodeId>, comps: seq<string>, data: Option<P>,
    run: (ActionId, Option<string>, seq<string>, Option<P>) -> ActionOutcome<P>): (r: Option<Session<P>>)
    requires InTree(t, routes)
    ensures r.None? <==> inFlight
    ensures r.Some? ==> var s := r.value;
      && s.trace == Loop(t, routes, comps, 0, data, run)
      && |s.events| > |s.trace.steps| && s.events[0] == GateSet
      && (forall k :: 0 <= k < |s.trace.steps| ==> s.events[k + 1] == Ran(k))
      && multiset(s.events)[Completion] == (if s.trace.stop.Finished? || s.trace.stop.Aborted? then 1 else 0)
      && (multiset(s.events)[Completion] > 0 ==>
            s.events[|s.events| - 1] == Completion && s.events[|s.events| - 2] == GateCleared)
      && (s.followUp.Some? <==> s.trace.stop.Redirected?)
      && (s.followUp.Some? ==> s.followUp.value == ScheduledRedirect(s.trace.stop.target, data))
      && (s.gateAfter <==> s.trace.stop.Trapped?)
  {
    if inFlight then None
    else Some(Close(Loop(t, routes, comps, 0, data, run), data))
  }

  lemma {:induction false} CompletionNotRan(n: nat)
    ensures multiset(RanEvents(n))[Completion] == 0
  {
    if n > 0 {
      CompletionNotRan(n - 1);
      assert RanEvents(n) == RanEvents(n - 1) + [Ran(n - 1)];
    }
  }

  /** Payload threading: with every step's input known, the payload of
      step `k + j` is what step `k + j - 1` left, and the final payload is
      the last step's. */
  lemma {:induction false} PayloadThreaded<P>(
    t: Tree, routes: seq<NodeId>, comps: seq<string>, data: Option<P>,
    run: (ActionId, Option<string>, seq<string>, Option<P>) -> ActionOutcome<P>, k: nat)
    requires InTree(t, routes)
    requires k + 1 < |Loop(t, routes, comps, 0, data, run).steps|
    ensures var s := Loop(t, routes, comps, 0, data, run).steps;
      s[k + 1].dataIn == Execute(t, s[k].node, s[k].variable, s[k].remaining, s[k].dataIn, run).data
  {
  }

  /** On a full match no index traps: none is past the path, and a
      nameless variable route is handed its own component. */
  lemma NoTrapOnFullMatch(t: Tree, routes: seq<NodeId>, comps: seq<string>, j: nat)
    requires InTree(t, routes) && Loggable(t, routes) && |routes| == |comps| && j < |comps|
    ensures !TrapsAt(t, routes, comps, j)
  {
    assert t.nodes[routes[j]].name.Some? || t.nodes[routes[j]].kind == Variable;
  }

  /** On a full match of routes that all have a name or are variable
      routes, the loop never traps. */
  lemma {:induction false} FullMatchNeverTraps<P>(
    t: Tree, routes: seq<NodeId>, comps: seq<string>, data: Option<P>,
    run: (ActionId, Option<string>, seq<string>, Option<P>) -> ActionOutcome<P>)
    requires InTree(t, routes) && Loggable(t, routes) && |routes| == |comps|
    ensures !Loop(t, routes, comps, 0, data, run).stop.Trapped?
  {
    var n := |Loop(t, routes, comps, 0, data, run).steps|;
    if n < |comps| {
      NoTrapOnFullMatch(t, routes, comps, n);
    }
  }

  /** How a session ends that never finishes: it traps exactly when no
      step stopped the loop, at the first index past the path or at a
      nameless route (no step of a short match is handed a variable); a
      trap fires no completion and is marked by the gate left set (the
      program itself aborts there). */
  predicate ShortEnd<P>(t: Tree, routes: seq<NodeId>, comps: seq<string>, s: Session<P>)
    requires InTree(t, routes)
  {
    var n := |s.trace.steps|;
    && !s.trace.stop.Finished?
    && (s.trace.stop.Trapped? <==> (n == 0 || !StopsAfter(t, s.trace.steps[n - 1])))
    && (s.trace.stop.Trapped? ==> n < |comps| && (n == |routes| || (n < |routes| && t.nodes[routes[n]].name.None?)))
    && (s.trace.stop.Trapped? ==> s.gateAfter && multiset(s.events)[Completion] == 0)
  }

  /** On a matched path shorter than the components the session never
      finishes: it traps exactly when no step stopped the loop, either past
      the path or at a nameless route, and a trap fires no completion and
      is marked by the gate left set. */
  lemma ShortSession<P>(
    t: Tree, routes: seq<NodeId>, comps: seq<string>, data: Option<P>,
    run: (ActionId, Option<string>, seq<string>, Option<P>) -> ActionOutcome<P>)
    requires InTree(t, routes) && |routes| < |comps|
    ensures ShortEnd(t, routes, comps, SerializedRoute(false, t, routes, comps, data, run).value)
  {
    ShortLoop(t, routes, comps, data, run);
  }

  /** The loop's part of `ShortSession`: how the trace of a short match
      ends. */
  lemma ShortLoop<P>(
    t: Tree, routes: seq<NodeId>, comps: seq<string>, data: Option<P>,
    run: (ActionId, Option<string>, seq<string>, Option<P>) -> ActionOutcome<P>)
    requires InTree(t, routes) && |routes| < |comps|
    ensures var tr := Loop(t, routes, comps, 0, data, run); var n := |tr.steps|;
      && !tr.stop.Finished?
      && (tr.stop.Trapped? <==> (n == 0 || !StopsAfter(t, tr.steps[n - 1])))
      && (tr.stop.Trapped? ==> n < |comps| && (n == |routes| || (n < |routes| && t.nodes[routes[n]].name.None?)))
  {
    var tr := Loop(t, routes, comps, 0, data, run);
    var n := |tr.steps|;
    if n > 0 {
      assert StepAt(t, routes, comps, 0 + (n - 1), tr.steps[n - 1], run);
    }
  }

  /** When nothing stops the loop early, every component gets its step:
      a redirect or an abort needs a last step that stops the loop, and the
      trap needs a matched path shorter than the components. */
  lemma {:induction false} RunsToEnd<P>(
    t: Tree, routes: seq<NodeId>, comps: seq<string>, i: nat, data: Option<P>,
    run: (ActionId, Option<string>, seq<string>, Option<P>) -> ActionOutcome<P>)
    requires InTree(t, routes) && Loggable(t, routes) && |routes| == |comps| && i <= |comps|
    requires forall j :: i <= j < |routes| ==> t.nodes[routes[j]].kind != Redirect
    requires forall a, v, rest, d :: !run(a, v, rest, d).releasedGate
    ensures Loop(t, routes, comps, i, data, run).stop.Finished?
    ensures |Loop(t, routes, comps, i, data, run).steps| == |comps| - i
  {
    var r := Loop(t, routes, comps, i, data, run);
    var n := |r.steps|;
    if i + n < |comps| {
      NoTrapOnFullMatch(t, routes, comps, i + n);
    }
    if n > 0 {
      var s := r.steps[n - 1];
      assert StepAt(t, routes, comps, i + (n - 1), s, run);
      assert t.nodes[s.node].kind != Redirect;
      assert !s.outcome.releasedGate by {
        if t.nodes[s.node].action.Some? {
          assert s.outcome == run(t.nodes[s.node].action.value, s.variable, s.remaining, s.dataIn);
        }
      }
    }
  }
}
