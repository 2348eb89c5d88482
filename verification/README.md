# pluggy's hook call loop, modelled in Dafny

This project models `_multicall`, the loop pluggy runs when a hook is called.

`_multicall` takes three inputs:

- the hook's implementations, as an already ordered list;
- the caller's keyword arguments;
- a `firstresult` flag.

The loop works in these steps:

1. It visits the implementations from the last to the first.
2. It binds each implementation's arguments by name. If a name is missing, it raises `HookCallError` for the first missing name.
3. A hook wrapper (a generator) is driven to its first `yield` and pushed onto a teardown stack. If it finishes without yielding, that is a "did not yield" failure.
4. A plain implementation is called. Its non-`None` return values are collected. In `firstresult` mode the loop stops at the first such value.
5. Any failure stops the loop and is captured, not propagated.
6. The loop then builds one outcome: the collected list, or in `firstresult` mode the first value or `None`, together with the captured failure.
7. It sends that outcome to every suspended wrapper, the last pushed first.
   - A teardown that raises overwrites the outcome's failure, and the last writer wins.
   - So does a teardown that yields a second time. The generator is then closed, and the failure is "has second yield", or whatever `close()` raised.
8. Finally the outcome is resolved: it returns its result or raises its failure.

Files:

- `hook_types.dfy` (module `HookTypes`): the values the loop exchanges.
  - Failures are opaque values. `HookCallError`, the wrapper failure and anything an implementation raises are told apart.
  - An outcome is a result together with an optional failure. Resolution is `GetResult`.
  - Each hook implementation is described abstractly: its argument names, plus total functions saying how its call, setup or teardown ends.
  - `Event`s record a setup, a call (both with the arguments passed) or a teardown (with the outcome sent), so the order of steps can be stated.
- `callers.dfy` (module `Callers`): the loop itself.
  - `MultiCall` is written as the program runs it: mutable locals `results`, `teardowns`, `excinfo` and the outcome, two `while` loops and `break`. It is split into `CallImpls` (the first loop), `BuildOutcome` and `RunTeardowns` (the second loop).
  - What one visit of position `i` does depends only on the implementation there, the keyword mapping and the first-result flag. `StepAt` describes it as a `Step`: the event it records, whether it pushes the wrapper, the value it adds, the failure it captures, and whether the loop goes on.
  - `MainLoop` is the first loop as a recursion over these steps, and `CallImpls` is proved equal to it. `Summary` states the same loop field by field: the visited positions run from the last one down to the first one that stops the loop (`Reached`), and each field collects what those visits add. `MainLoopSummary` proves the two equal. `MainPhase`, the first loop of a whole call, is that closed form.
  - `Teardowns` specifies the second loop and `MultiCallSpec` the whole call; `RunTeardowns` and `MultiCall` are proved equal to them.
  - `BindArgs` is the argument lookup, proved equal to the function `Bind`.
- `properties.dfy` (module `CallerProperties`): what the loop promises, proved about the specification functions:
  - visiting order, and the arguments each implementation receives;
  - when the first loop stops and what it captures;
  - which wrappers are pushed;
  - exactly-once teardown in reverse push order;
  - last-writer-wins on the failure.
- `examples.dfy` (module `CallerExamples`): small concrete calls with integer values, worked through the specification.

The order of events follows `src/pluggy/callers.py:21`, which iterates over `reversed(hook_impls)`. For the registered list `[A wrapper, B plain, C wrapper]` the order is therefore C-setup, B-call, A-setup, A-teardown, C-teardown (`CallerExamples.ReverseVisitAndTeardown`).

Argument binding follows `src/pluggy/callers.py:24-29`. After a failed lookup it scans the names in order and raises for the first one that is absent. It does not collect all the missing names.

## Model

| member | source | states |
|---|---|---|
| Callers.BindMeaning | src/pluggy/callers.py:23-29 | binding succeeds iff every argument name is in the keyword mapping; the arguments are then exactly the mapping's values for the names, in `argnames` order; otherwise the reported name is the first one, in `argnames` order, that the mapping lacks |
| Callers.BindArgs | src/pluggy/callers.py:23-29 | the lookup with its fallback scan for the first missing name gives exactly the binding `Bind` describes |
| Callers.StepAt | src/pluggy/callers.py:31-45 | a visit pushes only a wrapper; in first-result mode a visit that lets the loop go on adds no value |
| Callers.Reached | src/pluggy/callers.py:21-47 | the lowest visited position is below the position the loop starts from, and not below the first |
| Callers.SummaryUnroll | src/pluggy/callers.py:21-47 | the closed form behaves as the loop does: with nothing left it is the state itself; otherwise it applies the visit of the highest remaining position, then continues only if that visit goes on |
| Callers.MainLoopSummary | src/pluggy/callers.py:21-47 | the loop's recursion and its field-by-field closed form give the same state |
| Callers.PushedSteps | src/pluggy/callers.py:31-39 | only visited positions whose visit pushes end up on the teardown stack |
| Callers.MainPhase | src/pluggy/callers.py:19-47 | after the first loop of a whole call, every position on the teardown stack holds a wrapper of the list |
| Callers.CallImpls | src/pluggy/callers.py:16-47 | the first loop (with mutable results, teardown stack, captured failure and `break`) ends in exactly the state `MainLoop` specifies, and every stacked position is a wrapper |
| Callers.RunTeardowns | src/pluggy/callers.py:55-68 | the second loop leaves exactly the outcome and events `Teardowns` specifies |
| Callers.MultiCall | src/pluggy/callers.py:9-70 | a whole call returns exactly the resolution and event sequence `MultiCallSpec` specifies |
| CallerProperties.StepContinues | src/pluggy/callers.py:23-47 | a visit lets the loop go on iff the arguments bind and the wrapper yields or the plain call returns (without a value, in first-result mode); such a visit captures nothing and records an event; it pushes iff it goes on and is a wrapper; what it adds to the results is the non-`None` plain return value |
| CallerProperties.StepEvent | src/pluggy/callers.py:23-41 | a visit records no event exactly when the arguments do not bind; otherwise its event invokes the visited position with exactly its bound arguments |
| CallerProperties.ReachedAt | src/pluggy/callers.py:21-47 | the loop stops at the highest position whose visit does not go on |
| CallerProperties.ReachedAll | src/pluggy/callers.py:21 | when every visit goes on, the loop reaches the first position |
| CallerProperties.ReachedBelow | src/pluggy/callers.py:21-47 | every visited position above the lowest one went on |
| CallerProperties.ValuesSplit | src/pluggy/callers.py:41-43 | the values of a stretch of visits are those of the higher ones followed by that of the lowest |
| CallerProperties.EventsSplit | src/pluggy/callers.py:21-41 | the events of a stretch of visits are those of the higher ones followed by that of the lowest |
| CallerProperties.EventsOfRun | src/pluggy/callers.py:21-41 | visits that all go on record one event each, the p-th from the p-th position counted down |
| CallerProperties.CapturedRun | src/pluggy/callers.py:46-47 | only the visit that stops the loop can capture a failure, and it then replaces the one held |
| CallerProperties.PushedMarked | src/pluggy/callers.py:31-39 | the positions a stretch of visits pushes are exactly those of its events whose visit pushes, in event order |
| CallerProperties.PushedDescend | src/pluggy/callers.py:21-39 | wrappers are pushed in visiting order, so the stack holds distinct positions in strictly descending order |
| CallerProperties.TraceShape | src/pluggy/callers.py:21-41 | the first loop records at most one event per position; its p-th event comes from the p-th position from the end |
| CallerProperties.StopsAt | src/pluggy/callers.py:21-47 | when the loop stops at position i: it captures what i captured, collects the values of the higher positions and then that of i, records one event per visited position (i's last, if any) and does not push i |
| CallerProperties.StopsBelow | src/pluggy/callers.py:21-47 | when the loop stops at position i, no event comes from below i, nor from i itself if its arguments did not bind |
| CallerProperties.RunsThrough | src/pluggy/callers.py:21-47 | when every visit goes on, the loop records one event per position, captures nothing and collects every value |
| CallerProperties.CollectedValues | src/pluggy/callers.py:41-43 | the values visits add are the non-`None` plain returns, in visiting order |
| CallerProperties.MarkedYielded | src/pluggy/callers.py:31-39 | among invocations, the ones whose visit pushes are exactly the wrapper setups that reached `yield` |
| CallerProperties.NothingCollectedBeforeFirstResult | src/pluggy/callers.py:42-45 | in first-result mode, implementations that let the loop go on contribute no value |
| CallerProperties.AllVisited | src/pluggy/callers.py:21-45 | when every implementation continues, all are visited, no failure is captured, and the results are the non-`None` returns in visiting order (none in first-result mode) |
| CallerProperties.MissingArgument | src/pluggy/callers.py:23-47 | reaching a position with an absent name captures `HookCallError` for the first absent name; neither that position nor any lower one is invoked |
| CallerProperties.SetupWithoutYield | src/pluggy/callers.py:34-47 | a wrapper that finishes without yielding: "did not yield" is captured for it, its setup is the last event, it is not pushed, and no lower position is visited |
| CallerProperties.ImplRaises | src/pluggy/callers.py:31-47 | a raising setup or call: its failure is captured, its event is the last, it is not pushed, and no lower position is visited |
| CallerProperties.FirstResult | src/pluggy/callers.py:41-50 | in first-result mode the first non-`None` return ends the loop without a failure; it is the only collected value, the outcome's result is that value, and no lower position is invoked |
| CallerProperties.FirstResultAtMostOne | src/pluggy/callers.py:41-45 | in first-result mode the first loop collects at most one value |
| CallerProperties.FirstResultKeepsAll | src/pluggy/callers.py:41-50 | in first-result mode, building the outcome from the first value drops nothing: the outcome has no result exactly when nothing was collected, and `Single(v)` exactly when `v` is the only collected value |
| CallerProperties.NoFirstResult | src/pluggy/callers.py:49-50 | in first-result mode with no value and no failure the outcome is `None` with no failure (not an error) |
| CallerProperties.LoopEvents | src/pluggy/callers.py:21-41 | over invoking steps the first loop records invocations only, from the last position down, none skipped and none twice |
| CallerProperties.MainPhaseEvents | src/pluggy/callers.py:21-41 | over a whole call the first loop visits at most every position once, from the last to the first, none skipped, each with exactly its bound arguments |
| CallerProperties.MainPhaseStack | src/pluggy/callers.py:21-45 | the teardown stack holds exactly the wrappers whose setup reached `yield`, in setup order, each once, in descending position order |
| CallerProperties.TeardownsAppend | src/pluggy/callers.py:55-68 | the second loop only appends its own events to the trace, independently of what came before |
| CallerProperties.TeardownOrder | src/pluggy/callers.py:55-57 | each stacked wrapper is resumed exactly once, the last pushed first |
| CallerProperties.TeardownShape | src/pluggy/callers.py:55-57 | the second loop records one teardown of a wrapper per stacked position |
| CallerProperties.TeardownLinks | src/pluggy/callers.py:55-68 | the first resumed wrapper is sent the outcome as built, each later one the outcome the previous teardown left, and the caller gets the outcome the last teardown left |
| CallerProperties.TeardownOverwrites | src/pluggy/callers.py:56-68 | last writer wins: a raising teardown, or one that yields again (with or without `close()` raising), overwrites the failure that the next teardown, or the caller, sees; a normal finish passes the outcome on as the teardown left it |
| CallerProperties.FinishSplits | src/pluggy/callers.py:48-70 | after the first loop, a call's events are the first loop's followed by the second loop's, and it resolves the outcome the second loop leaves |
| CallerProperties.FinishOrder | src/pluggy/callers.py:48-68 | after the first loop's events come exactly one teardown per stacked wrapper, in reverse push order |
| CallerProperties.CallOrder | src/pluggy/callers.py:21-68 | a whole call's events are the first loop's, then exactly one teardown per stacked wrapper, in reverse push order |
| CallerProperties.FinishSendsBuilt | src/pluggy/callers.py:46-70 | the innermost suspended wrapper is sent the outcome as built, captured failure included; with no wrapper suspended the caller receives that failure, or the built result |
| CallerProperties.CapturedFailureReachesTeardowns | src/pluggy/callers.py:46-70 | over a whole call, a captured failure is not lost: it reaches the innermost suspended wrapper, or else the caller |
| CallerExamples.ReverseVisit | src/pluggy/callers.py:21-45 | for `[A wrapper, B plain, C wrapper]` the first loop sets up C, calls B, sets up A, and stacks C then A |
| CallerExamples.ReverseVisitAndTeardown | src/pluggy/callers.py:21-57 | `[A wrapper, B plain, C wrapper]` runs C-setup, B-call, A-setup, A-teardown, C-teardown |
| CallerExamples.FirstResultStopsEarly | src/pluggy/callers.py:41-50 | first-result mode with returns `None`, 5, 7 in visiting order returns 5 and never invokes the third |
| CallerExamples.AllResultsInVisitOrder | src/pluggy/callers.py:41-52 | without first-result mode the same call returns `[5, 7]` |
| CallerExamples.MissingArgumentStillTearsDown | src/pluggy/callers.py:23-57 | a missing name is reported, the implementation is not invoked, and the already suspended wrapper is still torn down, seeing the failure |
| CallerExamples.WrapperReplacesFailure | src/pluggy/callers.py:46-70 | a teardown that replaces the outcome turns a raised failure into the returned value 42 |
| CallerExamples.SecondYieldFails | src/pluggy/callers.py:57-70 | a wrapper that yields twice makes the call raise the "has second yield" failure |
| CallerExamples.LastWriterWins | src/pluggy/callers.py:55-70 | of two raising teardowns, the failure of the one resumed last is raised |

## Left out

- Generator mechanics are not modelled: `next`, `send`, `close`, `StopIteration`, `GeneratorExit` and finalizers postponed until garbage collection. A wrapper is a setup behaviour that yields, finishes or raises, and a teardown behaviour from the outcome it is sent to how it ends and what it left in the outcome.
- A wrapper's teardown is a function of the outcome alone. Its bound arguments and its state from setup are fixed within one call, so they are folded into that function.
- `sys.exc_info()`, tracebacks and `__tracebackhide__` are not modelled. A failure is an opaque value.
- `_Result`, `HookCallError` and `_raise_wrapfail` are defined in `src/pluggy/_result.py`, which is not part of this model. The model keeps only two facts:
  - an outcome is a result plus an optional failure;
  - resolution returns the result or raises the failure.

  Error message texts, including those built from generator code locations, are not modelled. A failure records only the missing argument name, or the wrapper position and whether it did not yield or yielded twice.
- The `Exception` versus `BaseException` distinction is not modelled. Every failure is treated alike, as the loop's handlers do.
- What implementations compute, and how implementations are registered and ordered, are not modelled. The list is taken as already ordered.
