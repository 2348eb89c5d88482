/** The hook call loop: binding arguments by name, the setup / plain-call
    loop over the implementations in reverse order, building the outcome,
    the teardown loop over the suspended wrappers, and resolution.

    `MultiCall` is the loop as the program runs it, with mutable locals and
    `break`; `MainLoop`, `Teardowns` and `MultiCallSpec` say the same thing
    as recursive functions, and `MultiCall` is proved equal to them. */
module Callers {
  import opened HookTypes

  /** Binding an implementation's arguments by name. */
  datatype Binding<V> = Bound(args: seq<V>) | Missing(argname: string)

  /** The arguments for `argnames`, looked up in `kwargs` in order, or the
      first name that `kwargs` lacks; `BindMeaning` states this. */
  function Bind<V>(argnames: seq<string>, kwargs: map<string, V>): Binding<V>
  {
    if argnames == [] then Bound([])
    else if argnames[0] !in kwargs then Missing(argnames[0])
    else
      match Bind(argnames[1..], kwargs)
      case Bound(rest) => Bound([kwargs[argnames[0]]] + rest)
      case Missing(name) => Missing(name)
  }

  /** Binding succeeds exactly when every name is in the mapping, and then
      the arguments are the mapping's values for the names, in order;
      otherwise it reports the first name, in `argnames` order, that the
      mapping lacks. */
  lemma {:induction false} BindMeaning<V>(argnames: seq<string>, kwargs: map<string, V>)
    ensures var b := Bind(argnames, kwargs);
      && (b.Bound? <==> forall j | 0 <= j < |argnames| :: argnames[j] in kwargs)
      && (b.Bound? ==> |b.args| == |argnames| &&
                       forall j | 0 <= j < |argnames| :: argnames[j] in kwargs && b.args[j] == kwargs[argnames[j]])
      && (b.Missing? ==>
            exists j | 0 <= j < |argnames| ::
              argnames[j] == b.argname && b.argname !in kwargs &&
              forall j' | 0 <= j' < j :: argnames[j'] in kwargs)
  {
    if argnames != [] && argnames[0] in kwargs {
      BindMeaning(argnames[1..], kwargs);
      var b := Bind(argnames, kwargs);
      if b.Missing? {
        var j :| 0 <= j < |argnames| - 1 && argnames[1..][j] == b.argname && b.argname !in kwargs &&
                 forall j' | 0 <= j' < j :: argnames[1..][j'] in kwargs;
        assert argnames[j + 1] == b.argname;
        assert forall j' | 0 <= j' < j + 1 :: argnames[j'] in kwargs by {
          forall j' | 0 <= j' < j + 1 ensures argnames[j'] in kwargs {
            if j' > 0 { assert argnames[j'] == argnames[1..][j' - 1]; }
          }
        }
      }
    }
  }

  /** The lookup as the program does it: collect values until a name is
      missing; on a missing name, scan the names again from the start and
      report the first one that is absent. */
  method BindArgs<V>(argnames: seq<string>, kwargs: map<string, V>) returns (b: Binding<V>)
    ensures b == Bind(argnames, kwargs)
  {
    BindMeaning(argnames, kwargs);
    var args: seq<V> := [];
    var j := 0;
    while j < |argnames| && argnames[j] in kwargs
      invariant 0 <= j <= |argnames| && |args| == j
      invariant forall k | 0 <= k < j :: argnames[k] in kwargs && args[k] == kwargs[argnames[k]]
    {
      args := args + [kwargs[argnames[j]]];
      j := j + 1;
    }
    if j == |argnames| {
      return Bound(args);
    }
    var s := 0;
    while argnames[s] in kwargs
      invariant 0 <= s <= j
      invariant forall k | 0 <= k < s :: argnames[k] in kwargs
      decreases j - s
    {
      s := s + 1;
    }
    b := Missing(argnames[s]);
  }

  /** The state of the first loop: collected results, suspended wrappers
      (by position, in the order they were pushed), the captured failure,
      and the events so far. */
  datatype LoopState<V> = LoopState(
    results: seq<V>,
    teardowns: seq<nat>,
    failure: Option<Failure>,
    trace: seq<Event<V>>)

  function Initial<V>(): LoopState<V> {
    LoopState([], [], None, [])
  }

  /** Every suspended position names a wrapper of `impls`. */
  predicate ValidTeardowns<V>(impls: seq<HookImpl<V>>, teardowns: seq<nat>) {
    forall t | t in teardowns :: t < |impls| && impls[t].Wrapper?
  }

  /** What visiting one position does, which depends only on the
      implementation there and not on the loop state: the event it records
      (none when the arguments do not bind), whether it pushes a wrapper,
      the value it adds to the results, the failure it captures, and
      whether the loop goes on to the next position. */
  datatype Step<V> = Step(event: Option<Event<V>>, pushed: bool, value: Option<V>,
                          failure: Option<Failure>, goOn: bool)

  /** Visiting position `i`: bind the arguments, then run a wrapper's setup
      or call a plain implementation. A failure stops the loop; in
      first-result mode so does the first value returned. */
  ghost function StepAt<V>(impls: seq<HookImpl<V>>, kwargs: map<string, V>, firstResult: bool, i: nat): (s: Step<V>)
    requires i < |impls|
    ensures s.pushed ==> impls[i].Wrapper?
    ensures firstResult && s.goOn ==> s.value.None?
  {
    var b := Bind(impls[i].argnames, kwargs);
    if b.Missing? then Step(None, false, None, Some(HookCallError(b.argname)), false)
    else if impls[i].Wrapper? then
      var ended := impls[i].setup(b.args);
      if ended.Yielded? then Step(Some(Setup(i, b.args)), true, None, None, true)
      else if ended.SetupFinished? then Step(Some(Setup(i, b.args)), false, None, Some(WrapFail(i, DidNotYield)), false)
      else Step(Some(Setup(i, b.args)), false, None, Some(ended.failure), false)
    else
      var ended := impls[i].call(b.args);
      if ended.CallRaise? then Step(Some(Call(i, b.args)), false, None, Some(ended.failure), false)
      else Step(Some(Call(i, b.args)), false, ended.value, None, !(firstResult && ended.value.Some?))
  }

  /** What visiting each position would do. */
  ghost function Steps<V>(impls: seq<HookImpl<V>>, kwargs: map<string, V>, firstResult: bool): (steps: seq<Step<V>>)
    ensures |steps| == |impls|
    ensures forall i | 0 <= i < |impls| :: steps[i] == StepAt(impls, kwargs, firstResult, i)
  {
    seq(|impls|, i requires 0 <= i < |impls| => StepAt(impls, kwargs, firstResult, i))
  }

  /** The loop state after a visit to position `i` that does `s`. */
  function Apply<V>(st: LoopState<V>, i: nat, s: Step<V>): LoopState<V> {
    LoopState(
      if s.value.Some? then st.results + [s.value.value] else st.results,
      if s.pushed then st.teardowns + [i] else st.teardowns,
      if s.failure.Some? then s.failure else st.failure,
      if s.event.Some? then st.trace + [s.event.value] else st.trace)
  }

  /** The value held by `o`, as a sequence of zero or one elements. */
  function AsSeq<T>(o: Option<T>): seq<T> {
    if o.Some? then [o.value] else []
  }

  /** The lowest position the first loop visits when positions `k - 1`
      down to 0 are still to be visited: the first one, counting down,
      whose step stops the loop, or 0 when none does. */
  ghost function Reached<V>(steps: seq<Step<V>>, k: nat): (lo: nat)
    requires k <= |steps|
    ensures lo <= k && (k > 0 ==> lo < k)
  {
    if k == 0 then 0 else if !steps[k - 1].goOn then k - 1 else Reached(steps, k - 1)
  }

  /** The values visits of positions `k - 1` down to `m` add, in that order. */
  ghost function Values<V>(steps: seq<Step<V>>, m: nat, k: nat): seq<V>
    requires m <= k <= |steps|
    decreases k - m
  {
    if k == m then [] else AsSeq(steps[k - 1].value) + Values(steps, m, k - 1)
  }

  /** The positions that visits of `k - 1` down to `m` push, in that order. */
  ghost function Pushed<V>(steps: seq<Step<V>>, m: nat, k: nat): seq<nat>
    requires m <= k <= |steps|
    decreases k - m
  {
    if k == m then [] else (if steps[k - 1].pushed then [k - 1] else []) + Pushed(steps, m, k - 1)
  }

  /** The events that visits of `k - 1` down to `m` record, in that order. */
  ghost function Events<V>(steps: seq<Step<V>>, m: nat, k: nat): seq<Event<V>>
    requires m <= k <= |steps|
    decreases k - m
  {
    if k == m then [] else AsSeq(steps[k - 1].event) + Events(steps, m, k - 1)
  }

  /** The captured failure after visits of `k - 1` down to `m`, starting
      from `f`: each failure overwrites the one before. */
  ghost function Captured<V>(steps: seq<Step<V>>, m: nat, k: nat, f: Option<Failure>): Option<Failure>
    requires m <= k <= |steps|
    decreases k - m
  {
    if k == m then f
    else Captured(steps, m, k - 1, if steps[k - 1].failure.Some? then steps[k - 1].failure else f)
  }

  /** The first loop, from the point where positions `k - 1` down to 0 are
      still to be visited in state `st`; position `j` does `steps[j]`. It
      visits `k - 1`, then goes on only if that visit lets it. */
  ghost function MainLoop<V>(steps: seq<Step<V>>, k: nat, st: LoopState<V>): LoopState<V>
    requires k <= |steps|
    decreases k
  {
    if k == 0 then st
    else
      var st1 := Apply(st, k - 1, steps[k - 1]);
      if steps[k - 1].goOn then MainLoop(steps, k - 1, st1) else st1
  }

  /** The state after visiting `k - 1` down to `Reached(steps, k)` from
      `st`, written field by field: each visit adds its value, its push,
      its failure and its event. */
  ghost function Summary<V>(steps: seq<Step<V>>, k: nat, st: LoopState<V>): LoopState<V>
    requires k <= |steps|
  {
    var lo := Reached(steps, k);
    LoopState(
      st.results + Values(steps, lo, k),
      st.teardowns + Pushed(steps, lo, k),
      Captured(steps, lo, k, st.failure),
      st.trace + Events(steps, lo, k))
  }

  lemma AppendNothing<T>(a: seq<T>)
    ensures a + [] == a
  {
  }

  lemma AppendAssoc<T>(a: seq<T>, b: seq<T>, c: seq<T>)
    ensures (a + b) + c == a + (b + c)
  {
  }

  /** `Summary` unrolls the way the loop runs: with nothing left to visit
      it is the state itself; otherwise it visits `k - 1`, then goes on
      to the rest only if that visit lets it. */
  lemma SummaryUnroll<V>(steps: seq<Step<V>>, k: nat, st: LoopState<V>)
    requires k <= |steps|
    ensures k == 0 ==> Summary(steps, k, st) == st
    ensures k > 0 && steps[k - 1].goOn ==>
      Summary(steps, k, st) == Summary(steps, k - 1, Apply(st, k - 1, steps[k - 1]))
    ensures k > 0 && !steps[k - 1].goOn ==>
      Summary(steps, k, st) == Apply(st, k - 1, steps[k - 1])
  {
    if k == 0 {
      AppendNothing(st.results);
      AppendNothing(st.teardowns);
      AppendNothing(st.trace);
    } else {
      var s := steps[k - 1];
      var st1 := Apply(st, k - 1, s);
      var lo := Reached(steps, k);
      var v, p, e := AsSeq(s.value), if s.pushed then [k - 1] else [], AsSeq(s.event);
      assert Values(steps, lo, k) == v + Values(steps, lo, k - 1);
      assert Pushed(steps, lo, k) == p + Pushed(steps, lo, k - 1);
      assert Events(steps, lo, k) == e + Events(steps, lo, k - 1);
      assert st1.results == st.results + v by { AppendNothing(st.results); }
      assert st1.teardowns == st.teardowns + p by { AppendNothing(st.teardowns); }
      assert st1.trace == st.trace + e by { AppendNothing(st.trace); }
      AppendAssoc(st.results, v, Values(steps, lo, k - 1));
      AppendAssoc(st.teardowns, p, Pushed(steps, lo, k - 1));
      AppendAssoc(st.trace, e, Events(steps, lo, k - 1));
      assert Captured(steps, lo, k, st.failure) == Captured(steps, lo, k - 1, st1.failure);
      if !s.goOn {
        assert lo == k - 1;
        assert Values(steps, lo, k - 1) == [] && Pushed(steps, lo, k - 1) == [] && Events(steps, lo, k - 1) == [];
        AppendNothing(st1.results);
        AppendNothing(st1.teardowns);
        AppendNothing(st1.trace);
      } else {
        assert lo == Reached(steps, k - 1);
      }
    }
  }

  /** The first loop is its `Summary`. */
  lemma {:induction false} MainLoopSummary<V>(steps: seq<Step<V>>, k: nat, st: LoopState<V>)
    requires k <= |steps|
    ensures MainLoop(steps, k, st) == Summary(steps, k, st)
    decreases k
  {
    if k > 0 {
      var st1 := Apply(st, k - 1, steps[k - 1]);
      if steps[k - 1].goOn {
        assert MainLoop(steps, k - 1, st1) == Summary(steps, k - 1, st1) by {
          MainLoopSummary(steps, k - 1, st1);
        }
        assert Summary(steps, k - 1, st1) == Summary(steps, k, st) by {
          SummaryUnroll(steps, k, st);
        }
      } else {
        assert st1 == Summary(steps, k, st) by {
          SummaryUnroll(steps, k, st);
        }
      }
    } else {
      SummaryUnroll(steps, k, st);
    }
  }

  /** Only visited positions whose step pushes end up on the stack. */
  lemma {:induction false} PushedSteps<V>(steps: seq<Step<V>>, m: nat, k: nat)
    requires m <= k <= |steps|
    ensures forall t | t in Pushed(steps, m, k) :: m <= t < k && steps[t].pushed
    decreases k - m
  {
    if k > m {
      PushedSteps(steps, m, k - 1);
    }
  }

  /** The outcome built from the first loop: in first-result mode the first
      collected value or `None`, otherwise the whole list. */
  function BuildOutcome<V>(results: seq<V>, failure: Option<Failure>, firstResult: bool): (o: Outcome<V>)
    ensures o.failure == failure
    ensures firstResult && |results| == 0 ==> o.result == NoResult
    ensures firstResult && |results| > 0 ==> o.result == Single(results[0])
    ensures !firstResult ==> o.result == Many(results)
  {
    if firstResult then Outcome(if |results| == 0 then NoResult else Single(results[0]), failure)
    else Outcome(Many(results), failure)
  }

  /** The outcome after one teardown ends: the object as the teardown left
      it, with its failure overwritten when the teardown raised or yielded
      a second time. */
  function AfterTeardown<V>(impl: nat, r: Resumed<V>): (o: Outcome<V>)
    ensures o.result == r.outcome.result
    ensures r.end.TeardownFinished? ==> o == r.outcome
    ensures r.end.TeardownRaise? ==> o.failure == Some(r.end.failure)
    ensures r.end.YieldedAgain? ==> o.failure.Some?
  {
    match r.end
    case TeardownFinished => r.outcome
    case TeardownRaise(f) => r.outcome.(failure := Some(f))
    case YieldedAgain(closeFailure) =>
      r.outcome.(failure := Some(if closeFailure.Some? then closeFailure.value else WrapFail(impl, SecondYield)))
  }

  /** The second loop: resume the suspended wrappers, the last pushed
      first, each with the outcome as it stands. */
  ghost function Teardowns<V>(impls: seq<HookImpl<V>>, teardowns: seq<nat>, o: Outcome<V>, trace: seq<Event<V>>)
    : (Outcome<V>, seq<Event<V>>)
    requires ValidTeardowns(impls, teardowns)
    decreases |teardowns|
  {
    if teardowns == [] then (o, trace)
    else
      var t := teardowns[|teardowns| - 1];
      assert t in teardowns;
      Teardowns(impls, teardowns[..|teardowns| - 1], AfterTeardown(t, impls[t].teardown(o)),
                trace + [Teardown(t, o)])
  }

  /** The first loop run over the whole list from the empty state, in the
      closed form `Summary` (equal to `MainLoop` by `MainLoopSummary`). */
  ghost function MainPhase<V>(impls: seq<HookImpl<V>>, kwargs: map<string, V>, firstResult: bool): (st: LoopState<V>)
    ensures ValidTeardowns(impls, st.teardowns)
  {
    var steps := Steps(impls, kwargs, firstResult);
    PushedSteps(steps, Reached(steps, |impls|), |impls|);
    Summary(steps, |impls|, Initial())
  }

  /** A whole call: what the caller receives, and the events in order. */
  ghost function MultiCallSpec<V>(impls: seq<HookImpl<V>>, kwargs: map<string, V>, firstResult: bool)
    : (Resolution<V>, seq<Event<V>>)
  {
    Finish(impls, MainPhase(impls, kwargs, firstResult), firstResult)
  }

  /** What follows the first loop, from the state it left: build the
      outcome, run the teardowns, resolve. */
  ghost function Finish<V>(impls: seq<HookImpl<V>>, st: LoopState<V>, firstResult: bool): (Resolution<V>, seq<Event<V>>)
    requires ValidTeardowns(impls, st.teardowns)
  {
    var (o, trace) := Teardowns(impls, st.teardowns, BuildOutcome(st.results, st.failure, firstResult), st.trace);
    (GetResult(o), trace)
  }

  /** The first loop: visit the implementations from the last registered
      to the first, binding arguments, running wrapper setups and plain
      calls, until one fails or, in first-result mode, returns a value. */
  method CallImpls<V>(impls: seq<HookImpl<V>>, kwargs: map<string, V>, firstResult: bool)
    returns (results: seq<V>, teardowns: seq<nat>, excinfo: Option<Failure>, trace: seq<Event<V>>)
    ensures ValidTeardowns(impls, teardowns)
    ensures LoopState(results, teardowns, excinfo, trace) == MainLoop(Steps(impls, kwargs, firstResult), |impls|, Initial())
  {
    results, teardowns, excinfo, trace := [], [], None, [];
    var k: nat := |impls|;
    ghost var steps := Steps(impls, kwargs, firstResult);
    while k > 0
      invariant k <= |impls|
      invariant ValidTeardowns(impls, teardowns)
      invariant MainLoop(steps, |impls|, Initial()) == MainLoop(steps, k, LoopState(results, teardowns, excinfo, trace))
    {
      var i := k - 1;
      var impl := impls[i];
      var binding := BindArgs(impl.argnames, kwargs);
      if binding.Missing? {
        excinfo := Some(HookCallError(binding.argname));
        break;
      }
      var args := binding.args;
      match impl {
        case Wrapper(_, setup, _) =>
          trace := trace + [Setup(i, args)];
          var ended := setup(args);
          if ended.SetupFinished? {
            excinfo := Some(WrapFail(i, DidNotYield));
            break;
          } else if ended.SetupRaise? {
            excinfo := Some(ended.failure);
            break;
          }
          teardowns := teardowns + [i];
        case Plain(_, call) =>
          trace := trace + [Call(i, args)];
          var ended := call(args);
          if ended.CallRaise? {
            excinfo := Some(ended.failure);
            break;
          }
          if ended.value.Some? {
            results := results + [ended.value.value];
            if firstResult {
              break;
            }
          }
      }
      k := k - 1;
    }
  }

  /** The second loop: send the outcome to each suspended wrapper, the last
      pushed first; a teardown that raises or yields again overwrites the
      outcome's failure, and the remaining teardowns still run. */
  method RunTeardowns<V>(impls: seq<HookImpl<V>>, teardowns: seq<nat>, outcome0: Outcome<V>, trace0: seq<Event<V>>)
    returns (outcome: Outcome<V>, trace: seq<Event<V>>)
    requires ValidTeardowns(impls, teardowns)
    ensures (outcome, trace) == Teardowns(impls, teardowns, outcome0, trace0)
  {
    outcome, trace := outcome0, trace0;
    var j := |teardowns|;
    assert teardowns[..j] == teardowns;
    while j > 0
      invariant j <= |teardowns|
      invariant ValidTeardowns(impls, teardowns[..j])
      invariant Teardowns(impls, teardowns, outcome0, trace0) == Teardowns(impls, teardowns[..j], outcome, trace)
    {
      var t := teardowns[j - 1];
      assert t in teardowns[..j];
      var resumed := impls[t].teardown(outcome);
      trace := trace + [Teardown(t, outcome)];
      match resumed.end {
        case TeardownFinished =>
          outcome := resumed.outcome;
        case TeardownRaise(f) =>
          outcome := resumed.outcome.(failure := Some(f));
        case YieldedAgain(closeFailure) =>
          var f := if closeFailure.Some? then closeFailure.value else WrapFail(t, SecondYield);
          outcome := resumed.outcome.(failure := Some(f));
      }
      assert teardowns[..j][..j - 1] == teardowns[..j - 1];
      j := j - 1;
    }
  }

  /** The call loop: run the implementations, capturing any failure, build
      the outcome, run every pending teardown, and resolve. */
  method MultiCall<V>(impls: seq<HookImpl<V>>, kwargs: map<string, V>, firstResult: bool)
    returns (res: Resolution<V>, trace: seq<Event<V>>)
    ensures (res, trace) == MultiCallSpec(impls, kwargs, firstResult)
  {
    var results, teardowns, excinfo;
    results, teardowns, excinfo, trace := CallImpls(impls, kwargs, firstResult);
    MainLoopSummary(Steps(impls, kwargs, firstResult), |impls|, Initial());
    var outcome := BuildOutcome(results, excinfo, firstResult);
    outcome, trace := RunTeardowns(impls, teardowns, outcome, trace);
    res := GetResult(outcome);
  }
}
