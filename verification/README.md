# Dispatch engine model

A Dafny model of the in-process request dispatcher of the Dispatch library
(`Dispatch/Dispatcher.cs`), together with two pieces of its sample API: the
in-memory `ToolRepository` and the `ExceptionLoggingBehavior` pipeline
behaviour.

The dispatcher sends a command or query to its single registered handler
through a chain of pipeline behaviours. The first registered behaviour is
outermost. When the chain faults, every exception action observes the
fault in priority order. Then the top-priority exception handler alone may
replace the fault with a result. With no exception handler, the original
fault is raised again. Notifications go to every notification handler in
registration order, outside the pipeline and without recovery.

How the model is built:

- `types.dfy` (`DispatchTypes`): origins `(assembly, namespace)`, requests,
  faults (`Exception`), `Outcome = Ok(r) | Fault(e)`, and the trace of
  observable calls (`Event`) that every dispatch returns with its outcome.
- `priority.dfy` (`Priority`): `PriorityScore`, a stable descending
  insertion sort by score, and `SortByPriority`.
- `pipeline.dfy` (`Pipeline`): behaviours, the composed `Chain`, the fold
  `Compose`, the reverse loop `BuildChain`, and `RunChain`, which runs a chain.
- `dispatcher.dfy` (`Dispatcher`): the registry of one (request type,
  result type) pair, fault recovery, and `Send`/`Query`/`Publish`.
- `exception_logging.dfy` (`ExceptionLogging`): the logging behaviour and
  the proof that inserting it anywhere does not change a dispatch's outcome.
- `tool_repository.dfy` (`ToolRepository`): the tool store as an immutable map.
- `scenarios.dfy` (`Scenarios`): small concrete registries that show the
  priority order and the stopping rules.

Modelling choices:

- The service container is replaced by a `Registry` value. It holds the
  optional handler and the behaviours, exception actions and exception
  handlers, each list in registration order.
  A registry is built per entry point: its `handler` is the command handler
  when it serves `Send` and the query handler when it serves `Query`. The
  two entry points differ only in which category of handler they resolve,
  so both read that one field.
- Reflection over types is replaced by an explicit `Origin` tag on the
  request and on each action and exception handler. A null namespace reads
  as `""`, as `?? string.Empty` does.
- A behaviour is two functions. `before` either short-circuits with an
  outcome or lets the continuation run once. `after` maps the
  continuation's outcome to the behaviour's own. Every behaviour that calls
  its continuation at most once has this form.
- Handlers, actions and exception handlers are function values. An action
  or notification handler returns `Some(e)` when it raises `e`.
- `Guid.NewGuid()` becomes a caller-supplied `freshId`.
- The +2 bonus follows the code at `Dispatch/Dispatcher.cs:114`. The code
  tests `itemNs.StartsWith(reqNs)`: the request's namespace must be a
  prefix of the component's.
- The handler lookup (`GetRequiredService`) happens before the pipeline's
  `try`. So a missing handler yields `Fault(MissingHandler)` with an empty
  trace: no behaviour, action or exception handler runs.

## Model

| member | source | states |
|---|---|---|
| Priority.PriorityScore | Dispatch/Dispatcher.cs:108-117 | The score lies in 0..7. It is at least 4 exactly when the assemblies are equal. Its 2-bit is set exactly when the item's namespace starts with the request's, and its 1-bit exactly when the request's namespace contains the item's. A missing namespace counts as "". |
| Priority.NamespaceBonusesIffEqual | Dispatch/Dispatcher.cs:114-115 | Both namespace bonuses apply together exactly when the two namespaces are equal. |
| Priority.ScoreSevenIffSameOrigin | Dispatch/Dispatcher.cs:110-116 | The score is 7 exactly for a component of the request's own assembly and namespace. |
| Priority.EmptyRequestNamespace | Dispatch/Dispatcher.cs:104-115 | A request type without a namespace gives every component the prefix bonus. It gives the containment bonus only to components without a namespace. |
| Priority.SortDescending | Dispatch/Dispatcher.cs:105 | The sort returns a permutation of its input (same multiset) whose scores never increase. |
| Priority.SortIsStable | Dispatch/Dispatcher.cs:105 | For every score, the elements with that score appear in the same order as in the input. |
| Priority.SortHeadIsEarliestMaximum | Dispatch/Dispatcher.cs:105 | The first element of the sorted list is the earliest input element among those with the maximum score. |
| Priority.SortByPriority | Dispatch/Dispatcher.cs:101-106 | The result is a permutation of the items in non-increasing score against the request's origin. Its head is the earliest registered item with the top score. |
| Priority.SortByPriorityIsStable | Dispatch/Dispatcher.cs:101-106 | Items with equal scores keep their registration order. |
| Pipeline.Compose | Dispatch/Dispatcher.cs:38-44 | The chain's layers, outermost first, are exactly the behaviours in registration order. With no behaviours the chain is the handler alone. |
| Pipeline.ComposeLayers | Dispatch/Dispatcher.cs:38-44 | A chain is determined by its layers: composing the layers of any chain gives that chain back. |
| Pipeline.BuildChain | Dispatch/Dispatcher.cs:38-44 | The loop from the last index down to 0 builds the same chain as the fold, with behaviour 0 outermost. |
| Pipeline.RunChain | Dispatch/Dispatcher.cs:41-48 | Running a chain records at least one call, and only behaviour entries, behaviour exits and the handler call. |
| Pipeline.NestingOrder | Dispatch/Dispatcher.cs:38-48 | When every behaviour calls its continuation, the trace is all entries in registration order, then the handler, then all exits in reverse order. The outcome is the handler's, transformed from the innermost behaviour outwards. |
| Pipeline.TwoBehaviors | Dispatch/Dispatcher.cs:38-48 | Behaviours B1, B2 give the trace B1-enter, B2-enter, H, B2-exit, B1-exit. |
| Pipeline.NoBehaviors | Dispatch/Dispatcher.cs:38-48 | With zero behaviours, the run is the handler call alone. |
| Pipeline.ShortCircuit | Dispatch/Dispatcher.cs:41-43 | A behaviour that skips its continuation suppresses every inner behaviour and the handler. Only behaviours 0..k are entered and exited, and the outcome is its own value transformed by the outer behaviours. |
| Dispatcher.RunInOrder | Dispatch/Dispatcher.cs:67-70 | Sequential invocation completes exactly when every step completes, and then every item is logged in order. Otherwise the first faulting item's fault escapes and only the items up to it were invoked. |
| Dispatcher.GetExceptionActions | Dispatch/Dispatcher.cs:86-90 | All registered exception actions, as a permutation in non-increasing priority. |
| Dispatcher.GetExceptionHandlers | Dispatch/Dispatcher.cs:92-97 | All registered exception handlers, as a permutation in non-increasing priority. The first is the earliest registered among the top scorers. |
| Dispatcher.ProcessExceptionActions | Dispatch/Dispatcher.cs:63-71 | The actions run in priority order, each given the original request and fault. The run completes exactly when every registered action completes. Otherwise the first faulting action's fault escapes and later actions are not run. |
| Dispatcher.TryHandleException | Dispatch/Dispatcher.cs:73-83 | The result is absent exactly when no exception handler is registered. Otherwise only the top-priority handler is invoked, with the original request and fault, and its outcome is the result. |
| Dispatcher.RecoverFromFault | Dispatch/Dispatcher.cs:50-60 | At most one exception handler runs. If all actions complete and no handler is registered, the original fault is raised again after the actions observed it. With a handler, its outcome replaces the fault, and it runs after every action. An action's fault escapes with no exception handler invoked. |
| Dispatcher.ExecutePipeline | Dispatch/Dispatcher.cs:33-61 | A successful chain's run is returned unchanged. On a fault, the chain's calls come first in the trace. At most one exception handler is invoked, and the trace is never empty. |
| Dispatcher.Send | Dispatch/Dispatcher.cs:8-13 | A missing handler yields the missing-handler fault. The trace is empty exactly when the handler is missing, so nothing runs. At most one exception handler is invoked. |
| Dispatcher.Query | Dispatch/Dispatcher.cs:15-20 | It behaves identically to `Send`, including the missing-handler case. |
| Dispatcher.SuccessSkipsRecovery | Dispatch/Dispatcher.cs:46-49 | If the chain succeeds, its result and trace are returned unchanged. No exception action or exception handler appears in the trace. |
| Dispatcher.FaultRecoveredByTopHandler | Dispatch/Dispatcher.cs:50-57 | On a fault, if all actions complete and a handler exists, the actions observe the fault in priority order. Then only the top-priority exception handler runs, and its outcome is returned. |
| Dispatcher.FaultRethrownWhenUnhandled | Dispatch/Dispatcher.cs:50-59 | On a fault with no exception handler, the actions observe it in priority order and the original fault is raised again unchanged. |
| Dispatcher.ActionFaultEscapes | Dispatch/Dispatcher.cs:50-53 | An action's fault replaces the original. The remaining actions and all exception handlers are skipped. |
| Dispatcher.Publish | Dispatch/Dispatcher.cs:22-30 | With zero handlers nothing happens. The handlers run one at a time in registration order. The first fault escapes and the later handlers never run. |
| Scenarios.OwnOriginScoresSeven | Dispatch/Dispatcher.cs:108-117 | A component declared in the request type's own assembly and namespace scores 7. |
| Scenarios.SiblingScoresThree | Dispatch/Dispatcher.cs:108-117 | A component in the request's namespace but another assembly scores 3. |
| Scenarios.PrioritySwapsTwo | Dispatch/Dispatcher.cs:100-105 | Of two items registered lower-scoring first, the sort puts the higher-scoring one first. |
| Scenarios.TwoActionsComplete | Dispatch/Dispatcher.cs:63-71 | Two exception actions that both complete each run once, in list order, and no new fault arises. |
| Scenarios.ActionsRunByPriority | Dispatch/Dispatcher.cs:63-71 | Actions registered as [A2 (score 3), A1 (score 7)] both observe the original fault, A1 first. |
| Scenarios.TopHandlerAloneRecovers | Dispatch/Dispatcher.cs:73-83 | Exception handlers registered as [R2 (score 3), R1 (score 7)]: only R1 is invoked, and its outcome is the result. |
| Scenarios.PublishStopsAtSecondFault | Dispatch/Dispatcher.cs:22-30 | With three notification handlers of which the second raises, exactly the first two run and the second's fault propagates. |
| ExceptionLogging.Handle | Dispatch.Sample.Api/Toolbox/V1/Pipeline/ExceptionLoggingBehavior.cs:15-30 | The continuation's result or fault passes through unchanged. Exactly one log line is written, naming the request and the fault, and only when a fault occurs with error logging enabled. |
| ExceptionLogging.AsBehavior | Dispatch.Sample.Api/Toolbox/V1/Pipeline/ExceptionLoggingBehavior.cs:12-19 | As a pipeline behaviour it always calls its continuation and completes with exactly that outcome. |
| ExceptionLogging.CallsNextOnce | Dispatch.Sample.Api/Toolbox/V1/Pipeline/ExceptionLoggingBehavior.cs:17-19 | Wrapped around any chain, it runs that chain exactly once, between its own entry and exit, and returns the chain's outcome. |
| ExceptionLogging.InsertTransparentKeepsOutcome | Dispatch/Dispatcher.cs:38-48 | Inserting a pass-through behaviour at any position leaves the chain's outcome unchanged. |
| ExceptionLogging.RecoveryIgnoresBehaviors | Dispatch/Dispatcher.cs:50-60 | Fault recovery depends only on the registered actions and exception handlers. |
| ExceptionLogging.InsertionKeepsDispatchOutcome | Dispatch.Sample.Api/Toolbox/V1/Pipeline/ExceptionLoggingBehavior.cs:7-8 | Inserting the logging behaviour anywhere in the behaviour list leaves the outcome of `Send` unchanged. |
| ToolRepository.Get | Dispatch.Sample.Api/Toolbox/V1/Services/ToolRepository.cs:29 | `Get` finds a tool exactly when the id is stored, and the tool it finds is the one stored under that id. In a well-keyed store, that tool carries the id. |
| ToolRepository.Add | Dispatch.Sample.Api/Toolbox/V1/Services/ToolRepository.cs:20-24 | The returned tool has the fresh id and the name, and `Get` then finds it. Every other entry is unchanged, a fresh id grows the store by one, and well-keyedness is kept. |
| ToolRepository.Remove | Dispatch.Sample.Api/Toolbox/V1/Services/ToolRepository.cs:27 | It returns true exactly when the id was present, and `Get(id)` then finds nothing. Other entries are unchanged. An absent id leaves the store as it was. |
| ToolRepository.List | Dispatch.Sample.Api/Toolbox/V1/Services/ToolRepository.cs:31 | The list has one entry per stored tool, and a tool is listed exactly when it is stored. In a well-keyed store each tool is listed once and stored under its own id. |

## Left out

- Registration and assembly scanning (`Dispatch/DependencyInjection.cs`, `Dispatch.Sample.Api/DependencyInjection.cs`) need reflection. The registry is an input to every operation instead.
- `Dispatch.Sample.Api/Program.cs`: HTTP endpoint wiring, outside the engine.
- `PerformanceLoggingBehavior`: it depends on a wall-clock stopwatch. Its control flow is the same pass-through shape as `ExceptionLoggingBehavior`.
- `LogExceptionAction`: console output only. In the model an action is a trace entry plus an optional fault.
- `TranslateInvalidOpHandler`: it is declared for `InvalidOperationException`. Its name ends in none of the suffixes the assembly scan looks for (`Dispatch/DependencyInjection.cs:27-30`), so it is never registered. Even if it were, the dispatcher asks only for handlers of the catch-all `Exception` category (`Dispatch/Dispatcher.cs:95`), so it would not be matched. The model does no filtering by fault type.
- Sample handlers (`AddToolCommand`, `RemoveToolCommand`, `GetToolQuery`, `ListToolsQuery`): one-line delegations to the repository. Handlers in the model are pure functions of the request, so state shared between a handler and the repository is not threaded through a dispatch.
- `CancellationToken`: the engine never inspects it, so it is omitted.
- `async`/`Task`: every step waits for the previous one, so the steps are modelled as synchronous functions.
- The service container's choice among several handlers registered for the same pair is container behaviour, so the registry holds at most one handler.
- Behaviours that call their continuation more than once (retries) cannot be expressed as `before`/`after`. The engine does not restrict this, and no behaviour in the repository does it.
- ExceptionLogging.AsBehavior: the log lines are not carried into the dispatch trace. `Handle` states what is logged, and `AsBehavior` keeps only the outcome.
- A null result from an exception handler (`result!`) is returned like any other value. The model does not distinguish null results.
- ToolRepository.Add: the new id is not required to be fresh. As in the source, a colliding id overwrites the stored entry. Growth of the store is stated only for fresh ids.
- Concurrent access to the tool store is not modelled. The repository is registered as a singleton (`Dispatch.Sample.Api/DependencyInjection.cs:16`), so concurrent HTTP requests share its unsynchronized dictionary. The model treats each operation as one sequential step on an immutable map.
- ToolRepository.List: the order of the listed tools is unspecified, as for dictionary values.
