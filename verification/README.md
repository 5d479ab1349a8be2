# ELRouter route tree and router, in Dafny

This project models the routing core of ELRouter, an iOS deep-link router,
together with its predecessor THGRouter.

A router owns a **master route**. Below the master route sit registered
top-level routes, and each route has an ordered list of **subroutes**.
A route has a name and a routing type (segue, fixed, push, modal,
variable, redirect, other). A *variable* route is nameless and matches any
URL component.

**Evaluating** a list of components (from route specs or from a deep-link
URL) works like this:

1. The components are matched against the tree: the literal name wins, the
   variable route is the fallback, and a component that matches nothing is
   skipped.
2. The matched routes are executed one by one. Each action receives the
   "next variable", the remaining components, and the associated data
   threaded from the previous action.
3. A route of type redirect whose action returns a route list stops the
   loop and schedules a re-evaluation.
4. A single in-flight gate prevents a second evaluation while one is
   running; the completion fires when the gate is cleared.

Modules:

- `Wrappers`: `Option` and `Result`.
- `RouteTree` (`ELRouter/Route.swift`): the route tree as an arena.
  Nodes are indexed by `NodeId`, a parent always has a smaller index, and
  subroutes are index lists. The module holds the lookups (`Filter`,
  `First`, by name and by type) and the checked builders `AddVariable`,
  `AddRoute` and `CopyRoute`. A builder's refusal is an explicit `Failure`.
- `Matcher`: `routes(forComponents:)`. `Resolve` is the reference
  definition and `RoutesForComponents` is the loop, proved equal to it.
- `RouteSpec`: route specs, `Variable(value:)`, `componentsFromRoutes`.
- `Translation`: the rule shared by both routers' `translate`.
- `DeepLink`: `deepLinkComponents` of a URL. The URL's host and path
  components are inputs.
- `Dispatch` (`ELRouter/Route.swift` `execute`, `ELRouter/Router.swift`
  `nextVariable` and `serializedRoute`): the sequential dispatch loop.
  - Actions are a caller-supplied function `run`. It returns a result, the
    new associated data, and whether the action released the gate.
  - A session records the trace of steps and the event log (gate set,
    each action run, gate cleared, completion).
  - It also records the scheduled redirect and the gate left behind.
- `Router` (`ELRouter/Router.swift`): the router state (tree, translation
  table, in-flight gate), plus `register`, `translate`, `route(forEnum:)`,
  `evaluate` for components, specs and URLs, and redirect chains. It ends
  with two worked scenarios.
- `Legacy` (`THGRouter/`): the unchecked THGRouter builders, its
  named-only `register` and `translate`, and its `deepLinkComponents`.

How the model represents behaviour:

- **Debug traps.** ELRouter reports a misuse (a duplicate name, a second
  variable, a duplicate translation) with `exceptionFailure` or
  `assertionFailure`. Both stop a debug or test build. The model returns
  `Failure` and leaves the state unchanged.
- **Redirect to a short route list.** The source's loop reads
  `routes[i]` while it walks the components, not the matched routes. When
  fewer routes matched than there are components, and no step stopped the
  loop, the next read is out of bounds. Swift traps there, after the gate
  was set and before it is cleared, and the trap aborts the process: this
  is a defect of the program, and nothing runs after it. The model ends such
  a session as `Trapped`. It leaves the gate set as a marker that the
  session never completed; no later evaluation of the program sees that
  state.
- **Nameless route in the debug log.** Before running route i the loop
  logs `(route.name ?? variable)!` (`log` takes a `String`, so the
  argument is built whether or not debug logging is on). A route without
  a name for which `nextVariable` found nothing unwraps nil, and Swift
  traps there, before the route runs. `nextVariable` finds nothing at all
  unless every component matched, so on a partial match any nameless
  matched route (a variable route) traps when the loop reaches it. On a
  full match a nameless route is a variable route and gets its component,
  so this never happens. The model ends such a session as `Trapped` too.

## Model

| member | source | states |
|---|---|---|
| RouteTree.Filter | ELRouter/Route.swift:312-323 | `filterByName`/`filterByType` keep exactly the routes of the list that match, and nothing else |
| RouteTree.FilterAppend | ELRouter/Route.swift:312-323 | filtering a concatenation is the concatenation of the filtered parts |
| RouteTree.FilterHeadIsFirst | ELRouter/Route.swift:249-255 | the head of a non-empty filter result is the first matching route of the list |
| RouteTree.FilterFrame | ELRouter/Route.swift:312-323 | filtering depends only on the names and types of the listed routes |
| RouteTree.FilterNone | ELRouter/Route.swift:312-323 | when no route matches, the filter is empty |
| RouteTree.FilterEmptyIff | ELRouter/Route.swift:312-323 | the filter is empty exactly when no listed route matches |
| RouteTree.ExactlyOneHeadMatch | ELRouter/Router.swift:211-219 | when the head matches, exactly one match means none in the rest |
| RouteTree.ExactlyOneHeadMiss | ELRouter/Router.swift:211-219 | when the head misses, exactly one match in the list means exactly one in the rest |
| RouteTree.FilterExactlyOne | ELRouter/Router.swift:211-219 | the filter has length one exactly when exactly one listed route matches |
| RouteTree.First | ELRouter/Route.swift:249-255 | `route(forName:)` and `route(forType:)` find something iff some subroute matches, and then they return the first match |
| RouteTree.NewRoute | ELRouter/Route.swift:64-83 | a new route gets a fresh id and holds exactly the given name, type, action and parent, without subroutes; existing routes and sibling-name uniqueness are unchanged |
| RouteTree.AddVariable | ELRouter/Route.swift:89-103 | refused iff a variable subroute exists already; otherwise a nameless variable child is appended and becomes the route found by type `.variable` |
| RouteTree.AddRoute | ELRouter/Route.swift:131-145 | refused iff a subroute of that name exists; otherwise the child is appended last and `route(forName:)` finds it; unique sibling names are kept |
| RouteTree.CopyRoute | ELRouter/Route.swift:113-128 | copying a variable route or a nameless route is refused; a named copy is refused iff the name is taken; otherwise name, type and action are copied but not the subroutes |
| RouteTree.AttachLookup | ELRouter/Route.swift:131-145 | a child appended where no sibling matched is the first match afterwards |
| RouteTree.AttachKeepsUniqueNames | ELRouter/Route.swift:131-145 | appending a child whose name no sibling has keeps sibling names distinct everywhere |
| Matcher.StepFrom | ELRouter/Route.swift:290-297 | one matching step picks a subroute that carries the component's name or is the variable route |
| Matcher.Resolve | ELRouter/Route.swift:285-303 | the matched routes form a parent-to-child path from the start route, never longer than the components |
| Matcher.ResolveAppend | ELRouter/Route.swift:285-303 | matching `a + b` matches `a`, then `b` from where `a` ended |
| Matcher.ResolvePrefix | ELRouter/Route.swift:285-303 | matching a longer component list extends the shorter match |
| Matcher.LiteralPrecedence | ELRouter/Route.swift:290-294 | a subroute named like the component wins over the variable route |
| Matcher.VariableFallback | ELRouter/Route.swift:290-297 | with no literal match, the variable subroute takes the component |
| Matcher.SkipUnmatched | ELRouter/Route.swift:290-300 | an unmatched component is skipped without moving down the tree |
| Matcher.FullMatchAligned | ELRouter/Route.swift:285-303 | when every component matched, the k-th route matches the k-th component |
| Matcher.ResolveStep | ELRouter/Route.swift:288-300 | a step that finds a subroute moves to it; a step that does not leaves the position unchanged |
| Matcher.LoopStep | ELRouter/Route.swift:288-300 | one iteration of the matching loop preserves "results so far plus the rest equals the whole match" |
| Matcher.RoutesForComponents | ELRouter/Route.swift:285-303 | the loop returns exactly the reference match `Resolve` |
| Matcher.SampleSteps | ELRouter/Route.swift:290-299 | on a walmart.com / variable / foo tree, each single step goes where the matching rules say |
| Matcher.SampleFullMatch | ELRouter/Route.swift:285-303 | `walmart.com/12345/foo` matches the whole path |
| Matcher.SampleTrailingVariable | ELRouter/Route.swift:285-303 | a trailing value is taken by the variable route |
| Matcher.SampleNoBacktrack | ELRouter/Route.swift:285-303 | an unknown last component is skipped, and the match stops short without backtracking |
| Matcher.SampleChildless | ELRouter/Route.swift:285-303 | from a route without subroutes nothing matches |
| RouteSpec.Variable | ELRouter/RouteSpec.swift:41-43 | a variable spec carries the value as its name, type variable, and no example |
| RouteSpec.ComponentsFromRoutes | ELRouter/Router.swift:271-277 | one component per spec, in order, each the spec's name |
| RouteSpec.VariableComponent | ELRouter/RouteSpec.swift:41-43 | a variable spec contributes its value as the component at its position |
| RouteSpec.NamesOfSuffix | ELRouter/Router.swift:271-277 | dropping the same number of leading entries keeps components and spec names aligned |
| RouteSpec.AddRouteForSpec | ELRouter/Route.swift:105-107 | adding a subroute for a spec uses the spec's name and type, and is refused iff the name is taken |
| Translation.Translate | ELRouter/Router.swift:42-49 | refused iff `from` already has a translation; otherwise `from` maps to `to` and every older entry is kept |
| Translation.SecondTranslationFails | ELRouter/Router.swift:42-49 | a second translation for the same key is refused |
| DeepLink.WithoutSlashes | ELRouter/NSURL+DeepLink.swift:24 | removing the "/" entries keeps every other entry with its multiplicity, and no "/" remains |
| DeepLink.WithoutSlashesAppend | ELRouter/NSURL+DeepLink.swift:24 | the filter distributes over concatenation |
| DeepLink.DeepLinkComponents | ELRouter/NSURL+DeepLink.swift:12-27 | no path gives no components; otherwise the host comes first (if any), followed by the path without "/" entries |
| DeepLink.EncodedComponentRetained | ELRouterTests/NSURLDeepLinkTests.swift:25-34 | a percent-encoded URL inside a path component stays one component |
| Dispatch.Execute | ELRouter/Route.swift:163-232 | a route without an action does nothing: no result, the data unchanged, the gate untouched |
| Dispatch.NextVariable | ELRouter/Router.swift:324-341 | the value for step i is the component at i when route i is a variable, else the component at i+1 when route i+1 is a variable, else none |
| Dispatch.Loop | ELRouter/Router.swift:366-400 | each step runs route i with the next variable and the remaining components; the data is threaded from step to step; the loop stops only at a redirect with a route list, an action that released the gate, or the end of the components; it traps, before running anything more, when it reads past the matched routes or when the route it is about to log has no name and no next variable |
| Dispatch.ConsThreaded | ELRouter/Router.swift:371-384 | prefixing a step whose input is the current data keeps the data threaded |
| Dispatch.ConsStopExplained | ELRouter/Router.swift:366-400 | a step that does not stop the loop keeps the loop's stop reason explained |
| Dispatch.Events | ELRouter/Router.swift:352-415 | the log starts with the gate being set, then the steps; the completion appears once, last and right after the gate is cleared, exactly when the loop finished or an action released the gate |
| Dispatch.CompletionNotRan | ELRouter/Router.swift:366-400 | running steps never fires the completion |
| Dispatch.SerializedRoute | ELRouter/Router.swift:343-418 | refuses iff a session is in flight; a redirect is scheduled iff the loop stopped at one, carrying the caller's original data; the gate is cleared unless the session trapped (the trap aborts the program; the set gate is the model's marker for it) |
| Dispatch.EpilogueCompletion | ELRouter/Router.swift:401-415 | the epilogue fires the completion once, right after clearing the gate, exactly when the loop finished or was aborted |
| Dispatch.Close | ELRouter/Router.swift:387-415 | closing a session keeps the trace; the log is the gate, the steps in order, then the completion once and last iff the loop finished or was aborted; a redirect is scheduled iff the loop stopped at one, with the caller's original data; the gate is cleared unless the loop trapped (the model's marker for the abort) |
| Dispatch.ShortSession | ELRouter/Router.swift:366-400 | on a matched path shorter than the components the session never finishes; it traps iff no step stopped the loop, and then at the first route past the path or at a nameless matched route, whose log line unwraps nil; a trap (a process abort in the program) fires no completion and is marked by the gate left set |
| Dispatch.ShortLoop | ELRouter/Router.swift:366-376 | the loop over a short match never finishes, and stops trapped exactly when its last step did not stop it, past the path or at a nameless route |
| Dispatch.NoTrapOnFullMatch | ELRouter/Router.swift:324-341 | on a full match where every route is named or a variable route, no index traps: each nameless route is a variable route and `nextVariable` hands it its component |
| Dispatch.FullMatchNeverTraps | ELRouter/Router.swift:366-376 | on such a full match the loop never traps, neither on a read past the routes nor in the log line |
| Dispatch.RunsToEnd | ELRouter/Router.swift:366-400 | with all components matched, no redirect route and no action releasing the gate, every route runs and the loop finishes |
| Router.Init | ELRouter/Router.swift:30-35 | a new router has only the master route "MASTER" of type other, no top-level routes, no translations, nothing in flight |
| Router.Top | ELRouter/Router.swift:99-106 | registration walks up the parent chain to an ancestor without a parent |
| Router.TopUnique | ELRouter/Router.swift:99-106 | that parentless ancestor is unique |
| Router.TopNotMaster | ELRouter/Router.swift:99-106 | the walk never ends at the master route |
| Router.Register | ELRouter/Router.swift:99-121 | a nameless top is ignored; a named one is refused iff a top-level route has its name, and is otherwise appended and found by name; the master route changes only in its subroutes, and other routes, translations and the gate are unchanged |
| Router.RegisterKeepsValid | ELRouter/Router.swift:113-120 | appending to the master's subroutes keeps the router invariant |
| Router.RegisterLookup | ELRouter/Router.swift:113-120 | a newly registered name is found by `route(forName:)` on the master |
| Router.RegisterKeepsUniqueNames | ELRouter/Router.swift:106-120 | registration keeps top-level names distinct |
| Router.AddRouteKeepsValid | ELRouter/Route.swift:89-145 | the checked builders, used below the master route, keep the router invariant and the top-level routes |
| Router.AppendKeepsValid | ELRouter/Route.swift:131-145 | appending a child whose parent link is set to a route other than the master keeps the router invariant |
| Router.Translate | ELRouter/Router.swift:42-49 | refused iff `from` is already translated; otherwise the table gains `from -> to` and keeps its other entries, and the tree and gate are unchanged |
| Router.RouteForEnum | ELRouter/Router.swift:211-219 | a route is returned iff exactly one top-level route has the spec's name, and then it is that route |
| Router.FilterAtMostOne | ELRouter/Router.swift:211-219 | among routes with distinct names, at most one matches a name |
| Router.RouteForEnumIsFirstMatch | ELRouter/Router.swift:211-230 | while top-level names are distinct, `route(forEnum:)` agrees with `route(forName:)` |
| Router.Evaluate | ELRouter/Router.swift:297-322 | handled iff nothing is in flight, there are components, and either every component matched or the match ends at a redirect route; a handled evaluation runs the matched routes with the remaining components and clears the gate unless it trapped (a process abort, marked in the model by the gate left set); a partial match never finishes, and traps iff no step stopped the loop, past the matched routes or at a nameless matched route whose log line unwraps nil; an unhandled one changes nothing |
| Router.FullMatchLoggable | ELRouter/Route.swift:285-303 | when every component matched, every matched route has a name or is a variable route, so the log line never unwraps nil |
| Router.SessionFacts | ELRouter/Router.swift:343-418 | a started session's steps run the matched routes in order and fire the completion at most once |
| Router.RemainingAreNames | ELRouter/Router.swift:271-277 | steps handed suffixes of the spec names are handed exactly the names of the later specs |
| Router.EvaluateSpecs | ELRouter/Router.swift:169-184 | handled iff nothing is in flight, there are specs, and their names either match in full or end at a redirect route; an unhandled call changes nothing; step k runs route k of the names' match, is handled the names of the specs after spec k, and on a full match runs a route named like spec k or a variable route |
| Router.EvaluateUrl | ELRouter/Router.swift:154-161 | handled iff the URL has a path and its components are handled as by `evaluate` (nothing in flight, a full match or a match ending at a redirect); an unhandled call changes nothing; step k runs route k of the components' match with the components after k; the first action receives the caller's data, or the URL itself when there is none |
| Router.RoutesMatchingUrl | ELRouter/Router.swift:257-269 | the routes matching a URL form a path from a top-level route, no longer than the URL's components, and none for a URL without a path; when every component matched, route k carries component k's name or is a variable route |
| Router.FullMatchCompletes | ELRouter/Router.swift:343-418 | when every component matched, with no redirect route and no action releasing the gate: every route runs, the completion fires once and last, nothing is scheduled, and the gate is cleared |
| Router.EvaluateWithRedirects | ELRouter/Router.swift:180-203 | handled iff the first evaluation is handled, and then the first session is exactly that evaluation's session; each later session is exactly the session of evaluating, on the same router, the redirect its predecessor scheduled, turned into specs and back into names, with the data originally passed in; the chain stops when a session schedules nothing, when a redirect is not handled, or after `fuel` redirects; the router's gate is the last session's; every session but the last ended at a redirect; the completion fires at most once along the chain, and never when the chain ends pending |
| Router.FollowFrom | ELRouter/Router.swift:180-203 | the chain from a first session keeps that session first, links each later session to its predecessor's redirect, and stops only when nothing is scheduled, a redirect is declined, or the fuel is spent |
| Router.FollowAll | ELRouter/Router.swift:194-203 | following redirects, at most `fuel` of them, keeps the given sessions as a prefix, adds sessions each of which is the evaluation of its predecessor's redirect, keeps the chain invariant, and stops only when nothing is scheduled, a redirect is declined, or `fuel` sessions were added; the router's gate is the last session's |
| Router.PendingNoCompletion | ELRouter/Router.swift:407-413 | a chain whose last session redirected has fired no completion |
| Router.StartChain | ELRouter/Router.swift:297-322 | the chain starts iff the first evaluation is handled, with exactly that evaluation's session, and the router is that evaluation's router |
| Router.FollowRedirect | ELRouter/Router.swift:180-203 | the scheduled redirect's strings become specs through `toSpecs` and their names are evaluated with the original data; it is followed iff that evaluation is handled, and then exactly that session is appended and the chain invariant kept; otherwise nothing changes |
| Router.ChainExtend | ELRouter/Router.swift:191-203 | appending the session a chain's last redirect led to keeps every session linked to its predecessor's redirect |
| Router.HandOver | ELRouter/Router.swift:387-393 | a handled session's first step receives the caller's data, and a scheduled redirect carries that same data |
| Router.ChainStart | ELRouter/Router.swift:343-418 | a single logged session is a valid chain |
| Router.ChainSnoc | ELRouter/Router.swift:194-203 | a chain ending at a redirect, extended by a session started with the same data, stays a valid chain |
| Router.ListTree | ELRouterTests/TypedRouteExecution.swift:48-131 | the Home / variable / AddToList / variable / DeleteFromList tree is a single well-formed path |
| Router.BuildList | ELRouterTests/TypedRouteExecution.swift:63-122 | building Home on a fresh router, then a variable, AddToList, a variable and DeleteFromList each under the one before, and registering the last link, fails nowhere and yields exactly the list tree, with Home as the only top-level route |
| Router.ListComponents | ELRouter/Router.swift:271-277 | the specs Home, 12345, AddToList, XYZ, DeleteFromList become exactly those components |
| Router.ListResolves | ELRouter/Route.swift:285-303 | those components match all five routes of the list tree |
| Router.ListVariables | ELRouter/Router.swift:324-341 | evaluating the list specs runs five steps with the variables 12345, 12345, XYZ, XYZ and none |
| Router.ListLoop | ELRouter/Router.swift:366-400 | the loop over the list path runs five steps, handed the variables 12345, 12345, XYZ, XYZ and none |
| Router.ListSession | ELRouterTests/TypedRouteExecution.swift:124-131 | that evaluation finishes, fires the completion once and last, and clears the gate |
| Router.RedirectResolves | ELRouter/Route.swift:285-303 | on a tree with one redirect route "a", the components a, b match only "a" |
| Router.RedirectLoopTraps | ELRouter/Router.swift:366-400 | on that path, an action that neither redirects nor releases the gate leaves the loop one step in, trapped |
| Router.RedirectCandidateTraps | ELRouter/Router.swift:366-400 | if that redirect's action returns no route list, the loop reads past the match and traps after one step (a process abort in the program; the model marks it by leaving the gate set) |
| Router.NamelessResolves | ELRouter/Route.swift:285-303 | the components a, 1, r, z match a, the variable route and r, and z is skipped |
| Router.NamelessLoopTraps | ELRouter/Router.swift:366-376 | on that short match, after route a ran, the loop reaches the variable route with no next variable and traps in its log line, one step in |
| Router.NamelessShortTraps | ELRouter/Router.swift:297-322 | evaluating a, 1, r, z on that router is handled (the match ends at a redirect route), runs one step and traps before the redirect is reached, scheduling nothing |
| Legacy.AddVariable | THGRouter/Route.swift:36-40 | appends a nameless child without any check, and drops the given action |
| Legacy.AddRoute | THGRouter/Route.swift:42-46 | appends a named child without any check; the count of that name among the siblings rises by exactly one |
| Legacy.SameNameTwice | THGRouter/Route.swift:42-46 | adding one name twice leaves two siblings of that name |
| Legacy.Register | THGRouter/Router.swift:17-21 | a named route is appended even when already registered; a nameless one changes nothing |
| Legacy.RegisterTwice | THGRouter/Router.swift:17-21 | registering a named route twice lists it twice |
| Legacy.TranslateRoute | THGRouter/Router.swift:23-30 | refused iff `from` is already translated; otherwise the mapping is added and everything else is kept |
| Legacy.DeepLinkComponents | THGRouter/NSURL+DeepLink.swift:12-37 | no path gives no components; a host comes first |
| Legacy.DeepLinkAgrees | THGRouter/NSURL+DeepLink.swift:12-37 | the legacy and current `deepLinkComponents` agree on every URL |
| Legacy.WalmartExample | THGRouter/NSURL+DeepLink.swift:14-31 | host walmart.com with path "/", "bar", "foo" gives walmart.com, bar, foo |

## Left out

- UIKit work in `execute` is not modelled: pushing, presenting, segues,
  and the cached static view controller. An action's observable effect is
  its returned result, its new associated data, and whether it released
  the gate; all three come from the caller-supplied `run` function.
- The navigator (`Navigator.swift`, `NavigationSyncing.swift`, tab
  selection) is not part of this model.
- Threading is not modelled: the spinlock, the background queue and the
  1 ms polling sleep. The model runs a session sequentially, start to
  finish.
- Release builds are not modelled. There `assertionFailure` does not stop,
  so the duplicate route, variable or translation would be added anyway.
  The model follows the debug and test behaviour: the operation is refused.
- `routesInFlight` is a static, shared by every router instance. Here the
  gate is a field of one router's state.
- The `parentRouter` back link of routes is not modelled; it only feeds
  the navigator.
- `routeEnumsFromComponents` is the application's conversion from a
  redirect's strings to route specs. The model takes it as the parameter
  `toSpecs` of the redirect chain. `evaluateURLString` (string-to-URL
  parsing) and the logging helpers are not part of this model. URLs enter
  as their host and path components.
- THGRouter's `evaluate`, `evaluateURL` and `sharedInstance` are left out:
  they only print the components, or create a singleton.
- Router.EvaluateWithRedirects: a redirect chain follows at most `fuel`
  redirects. In the source, a redirect cycle keeps re-evaluating forever;
  the bound leaves that unmodelled.
- Router.FollowAll: the same `fuel` bound on the number of redirects
  followed.
- Router.EvaluateWithRedirects: every session of a chain runs actions
  through the same pure `run`. An action therefore behaves the same on
  every visit, so a redirect cycle in the model always repeats; an action
  in the program may keep state and break the cycle on a later visit.
- Router.RedirectCandidateTraps: Swift's out-of-bounds trap aborts the
  process. The model ends the session as `Trapped` and leaves the gate set
  as a marker; that state has no counterpart in the program, and the model
  says nothing about any evaluation after a trap.
- Dispatch.Execute: its contract pins down only the action-less case. An
  action's outcome is whatever `run` returns.
- Legacy.DeepLinkComponents: its own contract states only the host and
  the no-path case. Legacy.DeepLinkAgrees carries the full property.
- Legacy.TranslateRoute: THGRouter's `exceptionFailure` comes from a
  library outside this repository. It is taken to stop execution, like
  ELRouter's in tests, so a repeated key is refused.
