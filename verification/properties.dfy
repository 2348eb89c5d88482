/** What the call loop promises: the order in which implementations are
    visited and wrappers torn down, the arguments each receives, when the
    first loop stops and what it captures, and how teardowns overwrite the
    outcome's failure.

    The first loop's shape (order, pushes, early stop) is proved for any
    coherent sequence of steps, then tied to the implementations through
    `StepAt`. */
module CallerProperties {
  import opened HookTypes
  import opened Callers

  /** An implementation that, once visited, lets the first loop go on: its
      arguments bind, and it is a wrapper that reaches its `yield`, or a
      plain implementation that returns without raising (and, in
      first-result mode, returns `None`). */
  ghost predicate Continues<V>(impl: HookImpl<V>, kwargs: map<string, V>, firstResult: bool) {
    var b := Bind(impl.argnames, kwargs);
    && b.Bound?
    && if impl.Wrapper? then impl.setup(b.args).Yielded?
       else impl.call(b.args).Return? && !(firstResult && impl.call(b.args).value.Some?)
  }

  /** What a plain implementation adds to the results when it is called:
      its return value, unless that is `None`. */
  ghost function Contribution<V>(impl: HookImpl<V>, kwargs: map<string, V>): seq<V> {
    var b := Bind(impl.argnames, kwargs);
    if b.Bound? && impl.Plain? && impl.call(b.args).Return? && impl.call(b.args).value.Some?
    then [impl.call(b.args).value.value]
    else []
  }

  /** The contributions of positions `k - 1` down to `m`, in visiting order. */
  ghost function Collected<V>(impls: seq<HookImpl<V>>, kwargs: map<string, V>, m: nat, k: nat): seq<V>
    requires m <= k <= |impls|
    decreases k - m
  {
    if k == m then [] else Contribution(impls[k - 1], kwargs) + Collected(impls, kwargs, m, k - 1)
  }

  /** An event of the first loop that is a real invocation of the
      implementation it names: a setup for a wrapper, a call for a plain
      one, with exactly the arguments bound from the keyword mapping. */
  ghost predicate IsInvocation<V>(impls: seq<HookImpl<V>>, kwargs: map<string, V>, e: Event<V>) {
    && e.impl < |impls|
    && !e.Teardown?
    && (e.Setup? <==> impls[e.impl].Wrapper?)
    && Bind(impls[e.impl].argnames, kwargs) == Bound(e.args)
  }

  /** The wrappers, in order, whose setup events in `trace` reached `yield`. */
  ghost function YieldedSetups<V>(impls: seq<HookImpl<V>>, trace: seq<Event<V>>): seq<nat> {
    if trace == [] then []
    else
      var e := trace[0];
      (if e.Setup? && e.impl < |impls| && impls[e.impl].Wrapper? && impls[e.impl].setup(e.args).Yielded?
       then [e.impl] else [])
      + YieldedSetups(impls, trace[1..])
  }

  /** Strictly decreasing, hence without repetition. */
  ghost predicate Descending(s: seq<nat>) {
    forall a, b | 0 <= a < b < |s| :: s[a] > s[b]
  }

  // ---------------------------------------------------------------------
  // The first loop over any coherent sequence of steps

  /** Steps as visits produce them: a step that goes on has recorded an
      event and captured nothing, only such a step pushes, and the event
      of position `j` names `j`. */
  ghost predicate Coherent<V>(steps: seq<Step<V>>) {
    forall j | 0 <= j < |steps| ::
      && (steps[j].goOn ==> steps[j].failure.None? && steps[j].event.Some?)
      && (steps[j].pushed ==> steps[j].goOn)
      && (steps[j].event.Some? ==> steps[j].event.value.impl == j)
  }

  /** The positions named by `events` whose step pushes, in event order. */
  ghost function Marked<V>(steps: seq<Step<V>>, events: seq<Event<V>>): seq<nat> {
    if events == [] then []
    else
      var t := events[0].impl;
      (if t < |steps| && steps[t].pushed then [t] else []) + Marked(steps, events[1..])
  }

  /** The first loop from the start, field by field: it visits `|steps| - 1`
      down to `Reached(steps, |steps|)`. */
  lemma FirstLoop<V>(steps: seq<Step<V>>)
    ensures var lo, st := Reached(steps, |steps|), Summary(steps, |steps|, Initial());
      && st.results == Values(steps, lo, |steps|)
      && st.teardowns == Pushed(steps, lo, |steps|)
      && st.failure == Captured(steps, lo, |steps|, None)
      && st.trace == Events(steps, lo, |steps|)
  {
  }

  /** The loop stops at `i` when every position above `i`, up to `k - 1`,
      goes on and `i` does not. */
  lemma {:induction false} ReachedAt<V>(steps: seq<Step<V>>, k: nat, i: nat)
    requires i < k <= |steps|
    requires forall j | i < j < k :: steps[j].goOn
    requires !steps[i].goOn
    ensures Reached(steps, k) == i
  {
    if k - 1 > i {
      ReachedAt(steps, k - 1, i);
    }
  }

  /** When every position below `k` goes on, the loop visits all of them. */
  lemma {:induction false} ReachedAll<V>(steps: seq<Step<V>>, k: nat)
    requires k <= |steps|
    requires forall j | 0 <= j < k :: steps[j].goOn
    ensures Reached(steps, k) == 0
  {
    if k > 0 {
      ReachedAll(steps, k - 1);
    }
  }

  /** Every position the loop visits, except the lowest, goes on. */
  lemma {:induction false} ReachedBelow<V>(steps: seq<Step<V>>, k: nat)
    requires k <= |steps|
    ensures forall j | Reached(steps, k) < j < k :: steps[j].goOn
  {
    if k > 0 && steps[k - 1].goOn {
      ReachedBelow(steps, k - 1);
    }
  }

  /** The values of a stretch are those of its upper part followed by the
      one of its lowest position. */
  lemma {:induction false} ValuesSplit<V>(steps: seq<Step<V>>, m: nat, k: nat)
    requires m < k <= |steps|
    ensures Values(steps, m, k) == Values(steps, m + 1, k) + AsSeq(steps[m].value)
    decreases k - m
  {
    if k - 1 > m {
      ValuesSplit(steps, m, k - 1);
      AppendAssoc(AsSeq(steps[k - 1].value), Values(steps, m + 1, k - 1), AsSeq(steps[m].value));
    }
  }

  /** A stretch of positions none of which adds a value adds nothing. */
  lemma {:induction false} NoValues<V>(steps: seq<Step<V>>, m: nat, k: nat)
    requires m <= k <= |steps|
    requires forall j | m <= j < k :: steps[j].value.None?
    ensures Values(steps, m, k) == []
    decreases k - m
  {
    if k > m {
      NoValues(steps, m, k - 1);
    }
  }

  /** The events of a stretch are those of its upper part followed by the
      one of its lowest position. */
  lemma {:induction false} EventsSplit<V>(steps: seq<Step<V>>, m: nat, k: nat)
    requires m < k <= |steps|
    ensures Events(steps, m, k) == Events(steps, m + 1, k) + AsSeq(steps[m].event)
    decreases k - m
  {
    if k - 1 > m {
      EventsSplit(steps, m, k - 1);
      AppendAssoc(AsSeq(steps[k - 1].event), Events(steps, m + 1, k - 1), AsSeq(steps[m].event));
    }
  }

  /** A stretch of positions that all go on records one event each, the
      `p`-th from position `k - 1 - p`. */
  lemma {:induction false} EventsOfRun<V>(steps: seq<Step<V>>, m: nat, k: nat)
    requires m <= k <= |steps| && Coherent(steps)
    requires forall j | m <= j < k :: steps[j].goOn
    ensures var ev := Events(steps, m, k);
      |ev| == k - m && forall p | 0 <= p < |ev| :: steps[k - 1 - p].event == Some(ev[p])
    decreases k - m
  {
    if k > m {
      assert steps[k - 1].goOn;
      EventsOfRun(steps, m, k - 1);
    }
  }

  /** The events the loop records from position `k - 1` down to `m`, when
      it goes on above `m`: at most one per position, the `p`-th from
      position `k - 1 - p`. */
  lemma EventsAt<V>(steps: seq<Step<V>>, m: nat, k: nat)
    requires m < k <= |steps| && Coherent(steps)
    requires forall j | m < j < k :: steps[j].goOn
    ensures var ev := Events(steps, m, k);
      && k - m - 1 <= |ev| <= k - m
      && (|ev| == k - m <==> steps[m].event.Some?)
      && forall p | 0 <= p < |ev| :: steps[k - 1 - p].event == Some(ev[p])
  {
    EventsSplit(steps, m, k);
    EventsOfRun(steps, m + 1, k);
  }

  /** Only the lowest position of a stretch can capture a failure when the
      others capture none; it then overwrites `f`. */
  lemma {:induction false} CapturedRun<V>(steps: seq<Step<V>>, m: nat, k: nat, f: Option<Failure>)
    requires m < k <= |steps|
    requires forall j | m < j < k :: steps[j].failure.None?
    ensures Captured(steps, m, k, f) == if steps[m].failure.Some? then steps[m].failure else f
    decreases k - m
  {
    if k - 1 > m {
      CapturedRun(steps, m, k - 1, f);
    }
  }

  lemma {:induction false} MarkedAppend<V>(steps: seq<Step<V>>, a: seq<Event<V>>, b: seq<Event<V>>)
    ensures Marked(steps, a + b) == Marked(steps, a) + Marked(steps, b)
  {
    if a == [] {
      assert a + b == b;
    } else {
      assert (a + b)[0] == a[0];
      assert (a + b)[1..] == a[1..] + b;
      MarkedAppend(steps, a[1..], b);
      AppendAssoc(Marked(steps, [a[0]]), Marked(steps, a[1..]), Marked(steps, b));
    }
  }

  /** The positions a stretch pushes are those of its recorded events
      whose step pushes, in event order. */
  lemma {:induction false} PushedMarked<V>(steps: seq<Step<V>>, m: nat, k: nat)
    requires m <= k <= |steps| && Coherent(steps)
    ensures Pushed(steps, m, k) == Marked(steps, Events(steps, m, k))
    decreases k - m
  {
    if k > m {
      var s := steps[k - 1];
      var e, rest := AsSeq(s.event), Events(steps, m, k - 1);
      assert Pushed(steps, m, k - 1) == Marked(steps, rest) by {
        PushedMarked(steps, m, k - 1);
      }
      assert Marked(steps, e + rest) == Marked(steps, e) + Marked(steps, rest) by {
        MarkedAppend(steps, e, rest);
      }
      assert Marked(steps, e) == if s.pushed then [k - 1] else [] by {
        if s.event.Some? {
          assert e[1..] == [];
        }
      }
    }
  }


  /** Putting a position above everything on a descending stack in front
      keeps it descending. */
  lemma DescendingCons(x: nat, s: seq<nat>)
    requires Descending(s)
    requires forall t | t in s :: t < x
    ensures Descending([x] + s)
  {
    var s' := [x] + s;
    forall a, b | 0 <= a < b < |s'| ensures s'[a] > s'[b] {
      assert s'[b] == s[b - 1];
      if a > 0 {
        assert s'[a] == s[a - 1];
      } else {
        assert s[b - 1] in s;
      }
    }
  }

  /** Positions are pushed in visiting order, so a stretch pushes distinct
      positions, highest first. */
  lemma {:induction false} PushedDescend<V>(steps: seq<Step<V>>, m: nat, k: nat)
    requires m <= k <= |steps|
    ensures Descending(Pushed(steps, m, k))
    decreases k - m
  {
    if k > m {
      var rest := Pushed(steps, m, k - 1);
      assert Descending(rest) by {
        PushedDescend(steps, m, k - 1);
      }
      if steps[k - 1].pushed {
        assert Descending([k - 1] + rest) by {
          PushedSteps(steps, m, k - 1);
          DescendingCons(k - 1, rest);
        }
      } else {
        assert [] + rest == rest;
      }
    }
  }


  /** The first loop's events over coherent steps: at most one per
      position, the `p`-th from position `|steps| - 1 - p`. */
  lemma TraceShape<V>(steps: seq<Step<V>>)
    requires Coherent(steps)
    ensures var tr := Summary(steps, |steps|, Initial()).trace;
      && |tr| <= |steps|
      && forall p | 0 <= p < |tr| :: steps[|steps| - 1 - p].event == Some(tr[p])
  {
    var n, lo := |steps|, Reached(steps, |steps|);
    var tr := Summary(steps, n, Initial()).trace;
    assert tr == Events(steps, lo, n) by {
      FirstLoop(steps);
    }
    if n > 0 {
      ReachedBelow(steps, n);
      EventsAt(steps, lo, n);
    }
  }

  /** The first loop stops at position `i` when every higher position goes
      on and `i` does not: the loop ends with what `i` captured, the values
      of the higher positions followed by the one of `i`, one event for each
      position visited (the last one from `i`, if it recorded one), and `i`
      not pushed. */
  lemma StopsAt<V>(steps: seq<Step<V>>, i: nat)
    requires i < |steps| && Coherent(steps)
    requires forall j | i < j < |steps| :: steps[j].goOn
    requires !steps[i].goOn
    ensures var st := Summary(steps, |steps|, Initial());
      var s := steps[i];
      && st.failure == s.failure
      && st.results == Values(steps, i + 1, |steps|) + AsSeq(s.value)
      && |st.trace| == |steps| - i - (if s.event.Some? then 0 else 1)
      && (s.event.Some? ==> st.trace[|st.trace| - 1] == s.event.value)
      && i !in st.teardowns
  {
    var n, s := |steps|, steps[i];
    var st := Summary(steps, n, Initial());
    FirstLoop(steps);
    ReachedAt(steps, n, i);
    assert st.results == Values(steps, i + 1, n) + AsSeq(s.value) by {
      ValuesSplit(steps, i, n);
    }
    assert st.failure == s.failure by {
      CapturedRun(steps, i, n, None);
    }
    assert i !in st.teardowns by {
      PushedSteps(steps, i, n);
    }
    EventsAt(steps, i, n);
  }

  /** When every position goes on, the first loop visits all of them,
      captures nothing and collects all their values. */
  lemma RunsThrough<V>(steps: seq<Step<V>>)
    requires Coherent(steps)
    requires forall j | 0 <= j < |steps| :: steps[j].goOn
    ensures var st := Summary(steps, |steps|, Initial());
      && |st.trace| == |steps|
      && st.failure == None
      && st.results == Values(steps, 0, |steps|)
  {
    FirstLoop(steps);
    ReachedAll(steps, |steps|);
    EventsOfRun(steps, 0, |steps|);
    if |steps| > 0 {
      assert steps[0].goOn;
      CapturedRun(steps, 0, |steps|, None);
    }
  }

  /** When the first loop stops at position `i`, no position below `i` was
      visited, nor `i` itself if its arguments did not bind. */
  lemma StopsBelow<V>(steps: seq<Step<V>>, i: nat)
    requires i < |steps| && Coherent(steps)
    requires forall j | i < j < |steps| :: steps[j].goOn
    requires !steps[i].goOn
    ensures forall e | e in Summary(steps, |steps|, Initial()).trace ::
      e.impl >= i && (steps[i].event.None? ==> e.impl > i)
  {
    var tr := Summary(steps, |steps|, Initial()).trace;
    TraceShape(steps);
    assert |tr| == |steps| - i - (if steps[i].event.Some? then 0 else 1) by {
      StopsAt(steps, i);
    }
    forall e | e in tr ensures e.impl >= i && (steps[i].event.None? ==> e.impl > i) {
      var p :| 0 <= p < |tr| && tr[p] == e;
      assert steps[|steps| - 1 - p].event == Some(e);
    }
  }

  // ---------------------------------------------------------------------
  // Visits of actual implementations

  /** A visit goes on exactly when the implementation continues; such a
      visit records an event, captures nothing, and pushes the position iff
      it holds a wrapper. Whatever a visit adds to the results is the
      implementation's contribution. */
  lemma StepContinues<V>(impls: seq<HookImpl<V>>, kwargs: map<string, V>, firstResult: bool, i: nat)
    requires i < |impls|
    ensures var s := StepAt(impls, kwargs, firstResult, i);
      && (s.goOn <==> Continues(impls[i], kwargs, firstResult))
      && (s.goOn ==> s.failure.None? && s.event.Some?)
      && (s.pushed <==> s.goOn && impls[i].Wrapper?)
      && AsSeq(s.value) == Contribution(impls[i], kwargs)
  {
  }

  /** The event a visit records: none exactly when the arguments do not
      bind, otherwise the invocation of the visited implementation with its
      bound arguments. */
  lemma StepEvent<V>(impls: seq<HookImpl<V>>, kwargs: map<string, V>, firstResult: bool, i: nat)
    requires i < |impls|
    ensures var s := StepAt(impls, kwargs, firstResult, i);
      && (s.event.None? <==> Bind(impls[i].argnames, kwargs).Missing?)
      && (s.event.Some? ==> s.event.value.impl == i && IsInvocation(impls, kwargs, s.event.value))
  {
  }

  /** The steps of actual implementations are coherent. */
  lemma StepsCoherent<V>(impls: seq<HookImpl<V>>, kwargs: map<string, V>, firstResult: bool)
    ensures Coherent(Steps(impls, kwargs, firstResult))
  {
    var steps := Steps(impls, kwargs, firstResult);
    forall j | 0 <= j < |steps|
      ensures && (steps[j].goOn ==> steps[j].failure.None? && steps[j].event.Some?)
              && (steps[j].pushed ==> steps[j].goOn)
              && (steps[j].event.Some? ==> steps[j].event.value.impl == j)
    {
      StepContinues(impls, kwargs, firstResult, j);
      StepEvent(impls, kwargs, firstResult, j);
    }
  }

  /** The values the steps of actual implementations add are their
      contributions. */
  lemma StepsContribute<V>(impls: seq<HookImpl<V>>, kwargs: map<string, V>, firstResult: bool)
    ensures var steps := Steps(impls, kwargs, firstResult);
      forall j | 0 <= j < |steps| :: AsSeq(steps[j].value) == Contribution(impls[j], kwargs)
  {
    var steps := Steps(impls, kwargs, firstResult);
    forall j | 0 <= j < |steps| ensures AsSeq(steps[j].value) == Contribution(impls[j], kwargs) {
      StepContinues(impls, kwargs, firstResult, j);
    }
  }

  /** Steps whose values are the implementations' contributions collect
      what `Collected` describes. */
  lemma {:induction false} CollectedValues<V>(impls: seq<HookImpl<V>>, kwargs: map<string, V>, steps: seq<Step<V>>,
                                              m: nat, k: nat)
    requires m <= k <= |impls| == |steps|
    requires forall j | m <= j < k :: AsSeq(steps[j].value) == Contribution(impls[j], kwargs)
    ensures Collected(impls, kwargs, m, k) == Values(steps, m, k)
    decreases k - m
  {
    if k > m {
      CollectedValues(impls, kwargs, steps, m, k - 1);
    }
  }

  /** For invocation events, the positions whose step pushes are exactly
      the wrappers whose setup reached `yield`. */
  lemma {:induction false} MarkedYielded<V>(impls: seq<HookImpl<V>>, kwargs: map<string, V>, firstResult: bool,
                                            events: seq<Event<V>>)
    requires forall p | 0 <= p < |events| :: IsInvocation(impls, kwargs, events[p])
    ensures Marked(Steps(impls, kwargs, firstResult), events) == YieldedSetups(impls, events)
  {
    if events != [] {
      var e, rest := events[0], events[1..];
      assert IsInvocation(impls, kwargs, e);
      assert Marked(Steps(impls, kwargs, firstResult), rest) == YieldedSetups(impls, rest) by {
        assert forall p | 0 <= p < |rest| :: rest[p] == events[p + 1];
        MarkedYielded(impls, kwargs, firstResult, rest);
      }
      StepContinues(impls, kwargs, firstResult, e.impl);
    }
  }

  /** Implementations that continue let the loop go on. */
  lemma ContinuingSteps<V>(impls: seq<HookImpl<V>>, kwargs: map<string, V>, firstResult: bool, m: nat)
    requires forall j | m <= j < |impls| :: Continues(impls[j], kwargs, firstResult)
    ensures forall j | m <= j < |impls| :: Steps(impls, kwargs, firstResult)[j].goOn
  {
    forall j | m <= j < |impls| ensures Steps(impls, kwargs, firstResult)[j].goOn {
      StepContinues(impls, kwargs, firstResult, j);
    }
  }

  /** In first-result mode, implementations that let the loop go on
      contribute nothing to the results. */
  lemma {:induction false} NothingCollectedBeforeFirstResult<V>(impls: seq<HookImpl<V>>, kwargs: map<string, V>,
                                                                m: nat, k: nat)
    requires m <= k <= |impls|
    requires forall j | m <= j < k :: Continues(impls[j], kwargs, true)
    ensures Collected(impls, kwargs, m, k) == []
  {
    if k > m {
      NothingCollectedBeforeFirstResult(impls, kwargs, m, k - 1);
    }
  }

  /** A run of the first loop in which every implementation continues:
      all of them are visited, no failure is captured, and the results are
      the non-`None` plain returns in visiting order (none at all in
      first-result mode). */
  lemma AllVisited<V>(impls: seq<HookImpl<V>>, kwargs: map<string, V>, firstResult: bool)
    requires forall j | 0 <= j < |impls| :: Continues(impls[j], kwargs, firstResult)
    ensures var st := MainPhase(impls, kwargs, firstResult);
      && |st.trace| == |impls|
      && st.failure == None
      && st.results == Collected(impls, kwargs, 0, |impls|)
      && (firstResult ==> st.results == [])
  {
    var steps := Steps(impls, kwargs, firstResult);
    StepsCoherent(impls, kwargs, firstResult);
    ContinuingSteps(impls, kwargs, firstResult, 0);
    RunsThrough(steps);
    StepsContribute(impls, kwargs, firstResult);
    CollectedValues(impls, kwargs, steps, 0, |impls|);
    if firstResult {
      NothingCollectedBeforeFirstResult(impls, kwargs, 0, |impls|);
    }
  }

  /** The steps of a list in which every position above `i` continues:
      coherent, and going on above `i`. */
  lemma StepsAbove<V>(impls: seq<HookImpl<V>>, kwargs: map<string, V>, firstResult: bool, i: nat)
    requires i < |impls|
    requires forall j | i < j < |impls| :: Continues(impls[j], kwargs, firstResult)
    ensures var steps := Steps(impls, kwargs, firstResult);
      Coherent(steps) && forall j | i < j < |steps| :: steps[j].goOn
  {
    StepsCoherent(impls, kwargs, firstResult);
    ContinuingSteps(impls, kwargs, firstResult, i + 1);
  }

  /** A missing argument: when position `i` is reached and one of its
      names is absent from the mapping, the loop captures `HookCallError`
      naming the first absent name (see `Bind`), and neither `i` nor any
      position below it is invoked. */
  lemma MissingArgument<V>(impls: seq<HookImpl<V>>, kwargs: map<string, V>, firstResult: bool, i: nat)
    requires i < |impls|
    requires forall j | i < j < |impls| :: Continues(impls[j], kwargs, firstResult)
    requires Bind(impls[i].argnames, kwargs).Missing?
    ensures var st := MainPhase(impls, kwargs, firstResult);
      && st.failure == Some(HookCallError(Bind(impls[i].argnames, kwargs).argname))
      && forall e | e in st.trace :: e.impl > i
  {
    var steps := Steps(impls, kwargs, firstResult);
    var name := Bind(impls[i].argnames, kwargs).argname;
    StepsAbove(impls, kwargs, firstResult, i);
    assert steps[i] == Step(None, false, None, Some(HookCallError(name)), false);
    StopsAt(steps, i);
    StopsBelow(steps, i);
  }

  /** A wrapper whose setup finishes without yielding: the loop captures
      the "did not yield" failure for it, its setup is the last event, it
      is not pushed for teardown, and no lower position is visited. */
  lemma SetupWithoutYield<V>(impls: seq<HookImpl<V>>, kwargs: map<string, V>, firstResult: bool, i: nat)
    requires i < |impls| && impls[i].Wrapper?
    requires forall j | i < j < |impls| :: Continues(impls[j], kwargs, firstResult)
    requires Bind(impls[i].argnames, kwargs).Bound?
    requires impls[i].setup(Bind(impls[i].argnames, kwargs).args) == SetupFinished
    ensures var st := MainPhase(impls, kwargs, firstResult);
      && st.failure == Some(WrapFail(i, DidNotYield))
      && |st.trace| == |impls| - i
      && st.trace[|st.trace| - 1] == Setup(i, Bind(impls[i].argnames, kwargs).args)
      && i !in st.teardowns
  {
    var steps := Steps(impls, kwargs, firstResult);
    var args := Bind(impls[i].argnames, kwargs).args;
    StepsAbove(impls, kwargs, firstResult, i);
    assert steps[i] == Step(Some(Setup(i, args)), false, None, Some(WrapFail(i, DidNotYield)), false);
    StopsAt(steps, i);
  }

  /** The visit of an implementation that raises records its invocation,
      captures the failure and stops the loop. */
  lemma RaisingStep<V>(impls: seq<HookImpl<V>>, kwargs: map<string, V>, firstResult: bool, i: nat, f: Failure)
    requires i < |impls|
    requires Bind(impls[i].argnames, kwargs).Bound?
    requires var args := Bind(impls[i].argnames, kwargs).args;
      if impls[i].Wrapper? then impls[i].setup(args) == SetupRaise(f) else impls[i].call(args) == CallRaise(f)
    ensures var s := Steps(impls, kwargs, firstResult)[i];
      s.event.Some? && s.event.value.impl == i && !s.goOn && s.failure == Some(f)
  {
    StepEvent(impls, kwargs, firstResult, i);
    StepContinues(impls, kwargs, firstResult, i);
  }

  /** An implementation that raises: the loop captures that failure, the
      raising implementation's event is the last, and no lower position is
      visited. */
  lemma ImplRaises<V>(impls: seq<HookImpl<V>>, kwargs: map<string, V>, firstResult: bool, i: nat, f: Failure)
    requires i < |impls|
    requires forall j | i < j < |impls| :: Continues(impls[j], kwargs, firstResult)
    requires Bind(impls[i].argnames, kwargs).Bound?
    requires var args := Bind(impls[i].argnames, kwargs).args;
      if impls[i].Wrapper? then impls[i].setup(args) == SetupRaise(f) else impls[i].call(args) == CallRaise(f)
    ensures var st := MainPhase(impls, kwargs, firstResult);
      && st.failure == Some(f)
      && |st.trace| == |impls| - i
      && st.trace[|st.trace| - 1].impl == i
      && i !in st.teardowns
  {
    var steps := Steps(impls, kwargs, firstResult);
    StepsAbove(impls, kwargs, firstResult, i);
    RaisingStep(impls, kwargs, firstResult, i, f);
    StopsAt(steps, i);
  }

  /** First-result mode: the first plain implementation that returns a
      value ends the loop; that value is the outcome's result and no lower
      position is invoked. */
  lemma FirstResult<V>(impls: seq<HookImpl<V>>, kwargs: map<string, V>, i: nat, v: V)
    requires i < |impls| && impls[i].Plain?
    requires forall j | i < j < |impls| :: Continues(impls[j], kwargs, true)
    requires Bind(impls[i].argnames, kwargs).Bound?
    requires impls[i].call(Bind(impls[i].argnames, kwargs).args) == Return(Some(v))
    ensures var st := MainPhase(impls, kwargs, true);
      && st.failure == None
      && st.results == [v]
      && BuildOutcome(st.results, st.failure, true) == Outcome(Single(v), None)
      && forall e | e in st.trace :: e.impl >= i
  {
    var steps := Steps(impls, kwargs, true);
    var args := Bind(impls[i].argnames, kwargs).args;
    StepsAbove(impls, kwargs, true, i);
    assert steps[i] == Step(Some(Call(i, args)), false, Some(v), None, false);
    assert Values(steps, i + 1, |impls|) == [] by {
      NoValues(steps, i + 1, |impls|);
    }
    StopsAt(steps, i);
    StopsBelow(steps, i);
    assert [] + [v] == [v];
  }

  /** First-result mode with no value returned and nothing failing: the
      outcome's result is `None` and it carries no failure. */
  lemma NoFirstResult<V>(impls: seq<HookImpl<V>>, kwargs: map<string, V>)
    requires forall j | 0 <= j < |impls| :: Continues(impls[j], kwargs, true)
    ensures var st := MainPhase(impls, kwargs, true);
      BuildOutcome(st.results, st.failure, true) == Outcome(NoResult, None)
  {
    AllVisited(impls, kwargs, true);
  }

  /** First-result mode collects at most one value: every implementation
      visited before the last one returned `None`. */
  lemma FirstResultAtMostOne<V>(impls: seq<HookImpl<V>>, kwargs: map<string, V>)
    ensures |MainPhase(impls, kwargs, true).results| <= 1
  {
    var steps := Steps(impls, kwargs, true);
    var n := |impls|;
    if n > 0 {
      var lo := Reached(steps, n);
      assert MainPhase(impls, kwargs, true).results == Values(steps, lo, n) by {
        FirstLoop(steps);
      }
      assert Values(steps, lo + 1, n) == [] by {
        ReachedBelow(steps, n);
        NoValues(steps, lo + 1, n);
      }
      ValuesSplit(steps, lo, n);
    }
  }

  /** So building the first-result outcome from the first value drops
      nothing: the outcome holds no result exactly when nothing was
      collected, and otherwise the one collected value. */
  lemma FirstResultKeepsAll<V>(impls: seq<HookImpl<V>>, kwargs: map<string, V>)
    ensures var st := MainPhase(impls, kwargs, true);
      var o := BuildOutcome(st.results, st.failure, true);
      && (o.result == NoResult <==> st.results == [])
      && forall v :: o.result == Single(v) <==> st.results == [v]
  {
    FirstResultAtMostOne(impls, kwargs);
  }

  /** The outcome a teardown event leaves behind: the wrapper's resumption
      with the outcome it was sent, with the failure overwritten as the
      second loop does. */
  ghost function LeftBy<V>(impls: seq<HookImpl<V>>, e: Event<V>): Outcome<V>
    requires e.Teardown? && e.impl < |impls| && impls[e.impl].Wrapper?
  {
    AfterTeardown(e.impl, impls[e.impl].teardown(e.seen))
  }

  /** The second loop only appends its own events to the trace. */
  lemma {:induction false} TeardownsAppend<V>(impls: seq<HookImpl<V>>, teardowns: seq<nat>, o: Outcome<V>,
                                              trace: seq<Event<V>>)
    requires ValidTeardowns(impls, teardowns)
    ensures Teardowns(impls, teardowns, o, trace)
         == (Teardowns(impls, teardowns, o, []).0, trace + Teardowns(impls, teardowns, o, []).1)
    decreases |teardowns|
  {
    var m := |teardowns|;
    if m > 0 {
      var t := teardowns[m - 1];
      assert t in teardowns;
      var rest := teardowns[..m - 1];
      var o1 := AfterTeardown(t, impls[t].teardown(o));
      var e := Teardown(t, o);
      TeardownsAppend(impls, rest, o1, trace + [e]);
      TeardownsAppend(impls, rest, o1, [e]);
      assert [] + [e] == [e];
      assert Teardowns(impls, teardowns, o, []) == Teardowns(impls, rest, o1, [e]);
      assert Teardowns(impls, teardowns, o, trace) == Teardowns(impls, rest, o1, trace + [e]);
      AppendAssoc(trace, [e], Teardowns(impls, rest, o1, []).1);
    } else {
      assert trace + [] == trace;
    }
  }

  /** Every event is a teardown of a wrapper of `impls`. */
  ghost predicate AllTeardowns<V>(impls: seq<HookImpl<V>>, tear: seq<Event<V>>) {
    forall q | 0 <= q < |tear| :: tear[q].Teardown? && tear[q].impl < |impls| && impls[tear[q].impl].Wrapper?
  }

  /** The second loop resumes every pushed wrapper exactly once, the last
      pushed first. */
  lemma {:induction false} TeardownOrder<V>(impls: seq<HookImpl<V>>, teardowns: seq<nat>, o: Outcome<V>)
    requires ValidTeardowns(impls, teardowns)
    ensures var tear := Teardowns(impls, teardowns, o, []).1;
      && |tear| == |teardowns|
      && forall q | 0 <= q < |tear| :: tear[q].Teardown? && tear[q].impl == teardowns[|teardowns| - 1 - q]
    decreases |teardowns|
  {
    var m := |teardowns|;
    if m > 0 {
      var t := teardowns[m - 1];
      assert t in teardowns;
      var rest := teardowns[..m - 1];
      var o1 := AfterTeardown(t, impls[t].teardown(o));
      var e := Teardown(t, o);
      TeardownOrder(impls, rest, o1);
      TeardownsAppend(impls, rest, o1, [e]);
      var r := Teardowns(impls, rest, o1, []).1;
      assert [] + [e] == [e];
      assert Teardowns(impls, teardowns, o, []).1 == [e] + r;
      forall q | 1 <= q < m ensures ([e] + r)[q].Teardown? && ([e] + r)[q].impl == teardowns[m - 1 - q] {
        assert ([e] + r)[q] == r[q - 1];
        assert rest[m - 1 - q] == teardowns[m - 1 - q];
      }
    }
  }

  /** Every event of the second loop is a teardown of a wrapper. */
  lemma TeardownShape<V>(impls: seq<HookImpl<V>>, teardowns: seq<nat>, o: Outcome<V>)
    requires ValidTeardowns(impls, teardowns)
    ensures var tear := Teardowns(impls, teardowns, o, []).1;
      |tear| == |teardowns| && AllTeardowns(impls, tear)
  {
    TeardownOrder(impls, teardowns, o);
    var tear := Teardowns(impls, teardowns, o, []).1;
    forall q | 0 <= q < |tear|
      ensures tear[q].Teardown? && tear[q].impl < |impls| && impls[tear[q].impl].Wrapper?
    {
      assert teardowns[|teardowns| - 1 - q] in teardowns;
    }
  }

  /** Each resumed wrapper is sent the outcome the previous teardown left,
      the first one the outcome as built, and the caller gets the outcome
      the last teardown left. */
  lemma {:induction false} TeardownLinks<V>(impls: seq<HookImpl<V>>, teardowns: seq<nat>, o: Outcome<V>)
    requires ValidTeardowns(impls, teardowns)
    ensures var (o', tear) := Teardowns(impls, teardowns, o, []);
      && |tear| == |teardowns|
      && AllTeardowns(impls, tear)
      && (tear == [] ==> o' == o)
      && (tear != [] ==> tear[0].seen == o && o' == LeftBy(impls, tear[|tear| - 1]))
      && (forall q {:trigger tear[q]} | 0 <= q < |tear| - 1 :: tear[q + 1].seen == LeftBy(impls, tear[q]))
    decreases |teardowns|
  {
    var m := |teardowns|;
    if m > 0 {
      var t := teardowns[m - 1];
      assert t in teardowns;
      var rest := teardowns[..m - 1];
      var o1 := AfterTeardown(t, impls[t].teardown(o));
      var e := Teardown(t, o);
      TeardownLinks(impls, rest, o1);
      TeardownsAppend(impls, rest, o1, [e]);
      var r := Teardowns(impls, rest, o1, []);
      var tear := [e] + r.1;
      assert [] + [e] == [e];
      assert Teardowns(impls, teardowns, o, []) == (r.0, tear);
      TeardownShape(impls, teardowns, o);
      forall q {:trigger tear[q]} | 0 <= q < |tear| - 1
        ensures tear[q + 1].seen == LeftBy(impls, tear[q])
      {
        assert tear[q + 1] == r.1[q];
        if q > 0 { assert tear[q] == r.1[q - 1]; }
      }
    }
  }

  /** Last writer wins: a teardown that raises, or yields a second time,
      overwrites the failure in the outcome that the next teardown is sent
      (or, for the last one, that the caller receives); a teardown that
      finishes normally leaves the outcome exactly as it left it itself. */
  lemma TeardownOverwrites<V>(impls: seq<HookImpl<V>>, teardowns: seq<nat>, o: Outcome<V>, q: nat)
    requires ValidTeardowns(impls, teardowns)
    requires q < |teardowns|
    ensures var (o', tear) := Teardowns(impls, teardowns, o, []);
      var m := |teardowns|;
      var t := teardowns[m - 1 - q];
      && |tear| == m && t < |impls| && impls[t].Wrapper?
      && tear[q].Teardown? && tear[q].impl == t
      && (q + 1 < m ==> tear[q + 1].Teardown?)
      && var r := impls[t].teardown(tear[q].seen);
         var next := if q + 1 < m then tear[q + 1].seen else o';
         && (r.end.TeardownRaise? ==> next.failure == Some(r.end.failure))
         && (r.end == YieldedAgain(None) ==> next.failure == Some(WrapFail(t, SecondYield)))
         && (r.end.YieldedAgain? && r.end.closeFailure.Some? ==> next.failure == r.end.closeFailure)
         && (r.end.TeardownFinished? ==> next == r.outcome)
  {
    TeardownOrder(impls, teardowns, o);
    TeardownLinks(impls, teardowns, o);
    assert teardowns[|teardowns| - 1 - q] in teardowns;
  }

  /** Steps whose recorded events are all invocations. */
  ghost predicate Invoking<V>(impls: seq<HookImpl<V>>, kwargs: map<string, V>, steps: seq<Step<V>>) {
    forall j | 0 <= j < |steps| :: steps[j].event.Some? ==> IsInvocation(impls, kwargs, steps[j].event.value)
  }

  /** Every event a step of an actual implementation records is an
      invocation. */
  lemma StepsInvoke<V>(impls: seq<HookImpl<V>>, kwargs: map<string, V>, firstResult: bool)
    ensures Invoking(impls, kwargs, Steps(impls, kwargs, firstResult))
  {
    var steps := Steps(impls, kwargs, firstResult);
    forall j | 0 <= j < |steps|
      ensures steps[j].event.Some? ==> IsInvocation(impls, kwargs, steps[j].event.value)
    {
      StepEvent(impls, kwargs, firstResult, j);
    }
  }

  /** A whole run of the first loop over invoking steps records one
      invocation per visited position, from the last position down. */
  lemma LoopEvents<V>(impls: seq<HookImpl<V>>, kwargs: map<string, V>, steps: seq<Step<V>>)
    requires Coherent(steps) && Invoking(impls, kwargs, steps)
    ensures var tr := Summary(steps, |steps|, Initial()).trace;
      && |tr| <= |steps|
      && (forall p | 0 <= p < |tr| :: tr[p].impl == |steps| - 1 - p)
      && (forall p | 0 <= p < |tr| :: IsInvocation(impls, kwargs, tr[p]))
  {
    var tr := Summary(steps, |steps|, Initial()).trace;
    TraceShape(steps);
    forall p | 0 <= p < |tr|
      ensures tr[p].impl == |steps| - 1 - p && IsInvocation(impls, kwargs, tr[p])
    {
      assert steps[|steps| - 1 - p].event == Some(tr[p]);
    }
  }

  /** The first loop of a whole call visits implementations from the last
      registered to the first, at most once each and none skipped, each
      with exactly its bound arguments. */
  lemma MainPhaseEvents<V>(impls: seq<HookImpl<V>>, kwargs: map<string, V>, firstResult: bool)
    ensures var st := MainPhase(impls, kwargs, firstResult);
      && |st.trace| <= |impls|
      && (forall p | 0 <= p < |st.trace| :: st.trace[p].impl == |impls| - 1 - p)
      && (forall p | 0 <= p < |st.trace| :: IsInvocation(impls, kwargs, st.trace[p]))
  {
    StepsCoherent(impls, kwargs, firstResult);
    StepsInvoke(impls, kwargs, firstResult);
    LoopEvents(impls, kwargs, Steps(impls, kwargs, firstResult));
  }

  /** The teardown stack of a whole call holds the wrappers whose setup
      reached `yield`, in setup order, each once. */
  lemma MainPhaseStack<V>(impls: seq<HookImpl<V>>, kwargs: map<string, V>, firstResult: bool)
    ensures var st := MainPhase(impls, kwargs, firstResult);
      && (forall p | 0 <= p < |st.trace| :: IsInvocation(impls, kwargs, st.trace[p]))
      && st.teardowns == YieldedSetups(impls, st.trace)
      && Descending(st.teardowns)
  {
    var steps := Steps(impls, kwargs, firstResult);
    var st := MainPhase(impls, kwargs, firstResult);
    MainPhaseEvents(impls, kwargs, firstResult);
    var lo := Reached(steps, |impls|);
    assert st.teardowns == Marked(steps, st.trace) by {
      StepsCoherent(impls, kwargs, firstResult);
      FirstLoop(steps);
      PushedMarked(steps, lo, |impls|);
    }
    MarkedYielded(impls, kwargs, firstResult, st.trace);
    assert Descending(st.teardowns) by {
      FirstLoop(steps);
      PushedDescend(steps, lo, |impls|);
    }
  }

  /** After the first loop, the call's events are the first loop's
      followed by the second loop's own, and it resolves the outcome the
      second loop leaves. */
  lemma FinishSplits<V>(impls: seq<HookImpl<V>>, st: LoopState<V>, firstResult: bool)
    requires ValidTeardowns(impls, st.teardowns)
    ensures var built := BuildOutcome(st.results, st.failure, firstResult);
      var r := Teardowns(impls, st.teardowns, built, []);
      Finish(impls, st, firstResult) == (GetResult(r.0), st.trace + r.1)
  {
    TeardownsAppend(impls, st.teardowns, BuildOutcome(st.results, st.failure, firstResult), st.trace);
  }

  /** After the first loop come exactly one teardown per wrapper on the
      stack, in reverse push order. */
  lemma FinishOrder<V>(impls: seq<HookImpl<V>>, st: LoopState<V>, firstResult: bool)
    requires ValidTeardowns(impls, st.teardowns)
    ensures var trace := Finish(impls, st, firstResult).1;
      var n, m := |st.trace|, |st.teardowns|;
      && |trace| == n + m
      && trace[..n] == st.trace
      && (forall p | n <= p < n + m :: trace[p].Teardown? && trace[p].impl == st.teardowns[n + m - 1 - p])
  {
    var built := BuildOutcome(st.results, st.failure, firstResult);
    FinishSplits(impls, st, firstResult);
    TeardownOrder(impls, st.teardowns, built);
    var tear := Teardowns(impls, st.teardowns, built, []).1;
    var n := |st.trace|;
    var trace := st.trace + tear;
    assert trace[..n] == st.trace;
    forall p | n <= p < |trace| ensures trace[p] == tear[p - n] { }
  }

  /** The events of a whole call: the first loop's events, then exactly
      one teardown per wrapper on the stack, in reverse push order. */
  lemma CallOrder<V>(impls: seq<HookImpl<V>>, kwargs: map<string, V>, firstResult: bool)
    ensures var st := MainPhase(impls, kwargs, firstResult);
      var trace := MultiCallSpec(impls, kwargs, firstResult).1;
      var n, m := |st.trace|, |st.teardowns|;
      && |trace| == n + m
      && trace[..n] == st.trace
      && (forall p | n <= p < n + m :: trace[p].Teardown? && trace[p].impl == st.teardowns[n + m - 1 - p])
  {
    FinishOrder(impls, MainPhase(impls, kwargs, firstResult), firstResult);
  }

  /** A captured failure is not lost: the innermost suspended wrapper is
      sent the outcome exactly as built, failure included; with no wrapper
      suspended, the caller receives the captured failure (or the result). */
  lemma FinishSendsBuilt<V>(impls: seq<HookImpl<V>>, st: LoopState<V>, firstResult: bool)
    requires ValidTeardowns(impls, st.teardowns)
    ensures var (res, trace) := Finish(impls, st, firstResult);
      var built := BuildOutcome(st.results, st.failure, firstResult);
      && |trace| >= |st.trace|
      && (st.teardowns != [] ==> |trace| > |st.trace| && trace[|st.trace|] == Teardown(st.teardowns[|st.teardowns| - 1], built))
      && (st.teardowns == [] ==> res == GetResult(built))
      && (st.teardowns == [] && st.failure.Some? ==> res == Raised(st.failure.value))
  {
    var built := BuildOutcome(st.results, st.failure, firstResult);
    FinishSplits(impls, st, firstResult);
    TeardownOrder(impls, st.teardowns, built);
    TeardownLinks(impls, st.teardowns, built);
  }

  /** Over a whole call: the innermost suspended wrapper sees the first
      loop's captured failure, and with no wrapper suspended the caller
      receives it. */
  lemma CapturedFailureReachesTeardowns<V>(impls: seq<HookImpl<V>>, kwargs: map<string, V>, firstResult: bool)
    ensures var st := MainPhase(impls, kwargs, firstResult);
      var (res, trace) := MultiCallSpec(impls, kwargs, firstResult);
      var built := BuildOutcome(st.results, st.failure, firstResult);
      && |trace| >= |st.trace|
      && (st.teardowns != [] ==> |trace| > |st.trace| && trace[|st.trace|] == Teardown(st.teardowns[|st.teardowns| - 1], built))
      && (st.teardowns == [] ==> res == GetResult(built))
      && (st.teardowns == [] && st.failure.Some? ==> res == Raised(st.failure.value))
  {
    FinishSendsBuilt(impls, MainPhase(impls, kwargs, firstResult), firstResult);
  }
}
