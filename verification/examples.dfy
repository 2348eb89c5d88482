/** Small concrete calls, with integers for values, worked through the
    model: the order of events, first-result mode, a missing argument, a
    wrapper that replaces a captured failure, and the failure overwrite
    rules of the second loop. */
module CallerExamples {
  import opened HookTypes
  import opened Callers

  /** A wrapper that yields once and, when resumed, finishes normally
      without touching the outcome. */
  function Passive(argnames: seq<string>): HookImpl<int> {
    Wrapper(argnames, (args: seq<int>) => Yielded, (o: Outcome<int>) => Resumed(o, TeardownFinished))
  }

  /** A plain implementation that always returns `r`. */
  function Returning(argnames: seq<string>, r: Option<int>): HookImpl<int> {
    Plain(argnames, (args: seq<int>) => Return(r))
  }

  /** A wrapper that yields once and, when resumed, raises `f`. */
  function RaisingTeardown(f: Failure): HookImpl<int> {
    Wrapper([], (args: seq<int>) => Yielded, (o: Outcome<int>) => Resumed(o, TeardownRaise(f)))
  }

  /** Registered as [A wrapper, B plain, C wrapper]: the first loop sets
      up C, calls B, sets up A, and leaves C and A stacked in that order. */
  lemma ReverseVisit()
    ensures MainPhase([Passive([]), Returning([], None), Passive([])], map[], false)
      == LoopState([], [2, 0], None, [Setup(2, []), Call(1, []), Setup(0, [])])
  {
    var impls := [Passive([]), Returning([], None), Passive([])];
    var kw: map<string, int> := map[];
    var steps := Steps(impls, kw, false);
    assert Bind<int>([], kw) == Bound([]);
    assert impls[2].setup([]) == Yielded && impls[0].setup([]) == Yielded;
    assert impls[1].call([]) == Return(None);
    var s0 := Initial<int>();
    var s1 := s0.(trace := s0.trace + [Setup(2, [])], teardowns := s0.teardowns + [2]);
    var s2 := s1.(trace := s1.trace + [Call(1, [])]);
    var s3 := s2.(trace := s2.trace + [Setup(0, [])], teardowns := s2.teardowns + [0]);
    assert StepAt(impls, kw, false, 2).goOn == true && Apply(s0, 2, StepAt(impls, kw, false, 2)) == s1;
    assert MainLoop(steps, 3, s0) == MainLoop(steps, 2, s1);
    assert StepAt(impls, kw, false, 1).goOn == true && Apply(s1, 1, StepAt(impls, kw, false, 1)) == s2;
    assert MainLoop(steps, 2, s1) == MainLoop(steps, 1, s2);
    assert StepAt(impls, kw, false, 0).goOn == true && Apply(s2, 0, StepAt(impls, kw, false, 0)) == s3;
    assert MainLoop(steps, 1, s2) == MainLoop(steps, 0, s3);
    MainLoopSummary(steps, |impls|, Initial());
    assert s3 == LoopState([], [2, 0], None, [Setup(2, []), Call(1, []), Setup(0, [])]);
  }

  /** The same call as a whole: A is torn down before C, and both see the
      empty result list. */
  lemma ReverseVisitAndTeardown()
    ensures var impls := [Passive([]), Returning([], None), Passive([])];
      var empty := Outcome(Many([]), None);
      MultiCallSpec(impls, map[], false)
        == (Returned(Many([])),
            [Setup(2, []), Call(1, []), Setup(0, []), Teardown(0, empty), Teardown(2, empty)])
  {
    var impls := [Passive([]), Returning([], None), Passive([])];
    var trace: seq<Event<int>> := [Setup(2, []), Call(1, []), Setup(0, [])];
    ReverseVisit();
    var empty := Outcome(Many([]), None);
    assert impls[0].teardown(empty) == Resumed(empty, TeardownFinished);
    assert impls[2].teardown(empty) == Resumed(empty, TeardownFinished);
    assert [2, 0][..1] == [2];
    assert Teardowns(impls, [2, 0], empty, trace)
        == Teardowns(impls, [2], empty, trace + [Teardown(0, empty)]);
    assert trace + [Teardown(0, empty)] + [Teardown(2, empty)]
        == [Setup(2, []), Call(1, []), Setup(0, []), Teardown(0, empty), Teardown(2, empty)];
  }

  /** First-result mode with the visits returning `None`, 5, then (never
      reached) 7: the call returns 5 alone, and the implementation that
      would return 7 is never invoked. */
  lemma FirstResultStopsEarly()
    ensures var impls := [Returning([], Some(7)), Returning([], Some(5)), Returning([], None)];
      MultiCallSpec(impls, map[], true) == (Returned(Single(5)), [Call(2, []), Call(1, [])])
  {
    var impls := [Returning([], Some(7)), Returning([], Some(5)), Returning([], None)];
    var kw: map<string, int> := map[];
    var steps := Steps(impls, kw, true);
    assert Bind<int>([], kw) == Bound([]);
    assert impls[2].call([]) == Return(None) && impls[1].call([]) == Return(Some(5));
    var s0 := Initial<int>();
    var s1 := s0.(trace := s0.trace + [Call(2, [])]);
    var s2 := s1.(trace := s1.trace + [Call(1, [])], results := s1.results + [5]);
    assert StepAt(impls, kw, true, 2).goOn == true && Apply(s0, 2, StepAt(impls, kw, true, 2)) == s1;
    assert MainLoop(steps, 3, s0) == MainLoop(steps, 2, s1);
    assert StepAt(impls, kw, true, 1).goOn == false && Apply(s1, 1, StepAt(impls, kw, true, 1)) == s2;
    assert MainLoop(steps, 2, s1) == s2;
    MainLoopSummary(steps, |impls|, Initial());
    assert MainPhase(impls, kw, true) == s2;
    assert s2.results == [5];
    assert s2.trace == [Call(2, []), Call(1, [])];
  }

  /** Without first-result mode the same implementations all run, and the
      non-`None` values are collected in visiting order. */
  lemma AllResultsInVisitOrder()
    ensures var impls := [Returning([], Some(7)), Returning([], Some(5)), Returning([], None)];
      MultiCallSpec(impls, map[], false).0 == Returned(Many([5, 7]))
  {
    var impls := [Returning([], Some(7)), Returning([], Some(5)), Returning([], None)];
    var kw: map<string, int> := map[];
    var steps := Steps(impls, kw, false);
    assert Bind<int>([], kw) == Bound([]);
    assert impls[2].call([]) == Return(None) && impls[1].call([]) == Return(Some(5));
    assert impls[0].call([]) == Return(Some(7));
    var s0 := Initial<int>();
    var s1 := s0.(trace := s0.trace + [Call(2, [])]);
    var s2 := s1.(trace := s1.trace + [Call(1, [])], results := s1.results + [5]);
    var s3 := s2.(trace := s2.trace + [Call(0, [])], results := s2.results + [7]);
    assert StepAt(impls, kw, false, 2).goOn == true && Apply(s0, 2, StepAt(impls, kw, false, 2)) == s1;
    assert MainLoop(steps, 3, s0) == MainLoop(steps, 2, s1);
    assert StepAt(impls, kw, false, 1).goOn == true && Apply(s1, 1, StepAt(impls, kw, false, 1)) == s2;
    assert MainLoop(steps, 2, s1) == MainLoop(steps, 1, s2);
    assert StepAt(impls, kw, false, 0).goOn == true && Apply(s2, 0, StepAt(impls, kw, false, 0)) == s3;
    assert MainLoop(steps, 1, s2) == MainLoop(steps, 0, s3);
    MainLoopSummary(steps, |impls|, Initial());
    assert MainPhase(impls, kw, false) == s3;
    assert s3.results == [5, 7];
  }

  /** A missing argument: the wrapper visited first receives its argument
      by name, the plain implementation lacking "y" is never invoked, and
      the wrapper's teardown still runs and sees the captured failure,
      which the caller then receives. */
  lemma MissingArgumentStillTearsDown()
    ensures var impls := [Returning(["x", "y"], Some(1)), Passive(["x"])];
      var failed := Outcome(Many([]), Some(HookCallError("y")));
      MultiCallSpec(impls, map["x" := 3], false)
        == (Raised(HookCallError("y")), [Setup(1, [3]), Teardown(1, failed)])
  {
    var impls := [Returning(["x", "y"], Some(1)), Passive(["x"])];
    var kw := map["x" := 3];
    var steps := Steps(impls, kw, false);
    assert Bind(["x"], kw) == Bound([3]);
    assert Bind(["y"], kw) == Missing("y");
    assert Bind(["x", "y"], kw) == Missing("y");
    assert impls[1].setup([3]) == Yielded;
    var s0 := Initial<int>();
    var s1 := s0.(trace := s0.trace + [Setup(1, [3])], teardowns := s0.teardowns + [1]);
    var s2 := s1.(failure := Some(HookCallError("y")));
    assert StepAt(impls, kw, false, 1).goOn == true && Apply(s0, 1, StepAt(impls, kw, false, 1)) == s1;
    assert MainLoop(steps, 2, s0) == MainLoop(steps, 1, s1);
    assert StepAt(impls, kw, false, 0).goOn == false && Apply(s1, 0, StepAt(impls, kw, false, 0)) == s2;
    assert MainLoop(steps, 1, s1) == s2;
    MainLoopSummary(steps, |impls|, Initial());
    assert MainPhase(impls, kw, false) == s2;
    assert s2.teardowns == [1];
    var failed := Outcome(Many([]), Some(HookCallError("y")));
    assert impls[1].teardown(failed) == Resumed(failed, TeardownFinished);
    assert s2.trace + [Teardown(1, failed)] == [Setup(1, [3]), Teardown(1, failed)];
  }

  /** A wrapper whose teardown replaces the outcome of a failed call with
      the value 42 turns the failure into a normal return. */
  lemma WrapperReplacesFailure()
    ensures var w := Wrapper([], (args: seq<int>) => Yielded,
                             (o: Outcome<int>) => Resumed(Outcome(Single(42), None), TeardownFinished));
      var impls := [Plain([], (args: seq<int>) => CallRaise(ImplError(7))), w];
      MultiCallSpec(impls, map[], false).0 == Returned(Single(42))
  {
    var w := Wrapper([], (args: seq<int>) => Yielded,
                     (o: Outcome<int>) => Resumed(Outcome(Single(42), None), TeardownFinished));
    var impls := [Plain([], (args: seq<int>) => CallRaise(ImplError(7))), w];
    var kw: map<string, int> := map[];
    var steps := Steps(impls, kw, false);
    assert Bind<int>([], kw) == Bound([]);
    assert impls[1].setup([]) == Yielded && impls[0].call([]) == CallRaise(ImplError(7));
    var s0 := Initial<int>();
    var s1 := s0.(trace := s0.trace + [Setup(1, [])], teardowns := s0.teardowns + [1]);
    var s2 := s1.(trace := s1.trace + [Call(0, [])], failure := Some(ImplError(7)));
    assert StepAt(impls, kw, false, 1).goOn == true && Apply(s0, 1, StepAt(impls, kw, false, 1)) == s1;
    assert MainLoop(steps, 2, s0) == MainLoop(steps, 1, s1);
    assert StepAt(impls, kw, false, 0).goOn == false && Apply(s1, 0, StepAt(impls, kw, false, 0)) == s2;
    assert MainLoop(steps, 1, s1) == s2;
    MainLoopSummary(steps, |impls|, Initial());
    assert MainPhase(impls, kw, false) == s2;
    assert s2.teardowns == [1];
    var failed := Outcome(Many([]), Some(ImplError(7)));
    assert impls[1].teardown(failed) == Resumed(Outcome(Single(42), None), TeardownFinished);
  }

  /** A wrapper that yields a second time is reported as broken. */
  lemma SecondYieldFails()
    ensures var w := Wrapper([], (args: seq<int>) => Yielded,
                             (o: Outcome<int>) => Resumed(o, YieldedAgain(None)));
      MultiCallSpec([w], map[], false).0 == Raised(WrapFail(0, SecondYield))
  {
    var w := Wrapper([], (args: seq<int>) => Yielded,
                     (o: Outcome<int>) => Resumed(o, YieldedAgain(None)));
    var kw: map<string, int> := map[];
    var steps := Steps([w], kw, false);
    assert Bind<int>([], kw) == Bound([]);
    assert w.setup([]) == Yielded;
    var s0 := Initial<int>();
    var s1 := s0.(trace := s0.trace + [Setup(0, [])], teardowns := s0.teardowns + [0]);
    assert StepAt([w], kw, false, 0).goOn == true && Apply(s0, 0, StepAt([w], kw, false, 0)) == s1;
    assert MainLoop(steps, 1, s0) == MainLoop(steps, 0, s1);
    MainLoopSummary(steps, |[w]|, Initial());
    assert MainPhase([w], kw, false) == s1;
    assert s1.teardowns == [0];
    var empty := Outcome(Many([]), None);
    assert w.teardown(empty) == Resumed(empty, YieldedAgain(None));
  }

  /** Two teardowns that both raise: the one resumed last, the wrapper
      pushed first, has the last word. */
  lemma LastWriterWins()
    ensures var impls := [RaisingTeardown(ImplError(1)), RaisingTeardown(ImplError(2))];
      MultiCallSpec(impls, map[], false).0 == Raised(ImplError(2))
  {
    var impls := [RaisingTeardown(ImplError(1)), RaisingTeardown(ImplError(2))];
    var kw: map<string, int> := map[];
    var steps := Steps(impls, kw, false);
    assert Bind<int>([], kw) == Bound([]);
    assert impls[1].setup([]) == Yielded && impls[0].setup([]) == Yielded;
    var s0 := Initial<int>();
    var s1 := s0.(trace := s0.trace + [Setup(1, [])], teardowns := s0.teardowns + [1]);
    var s2 := s1.(trace := s1.trace + [Setup(0, [])], teardowns := s1.teardowns + [0]);
    assert StepAt(impls, kw, false, 1).goOn == true && Apply(s0, 1, StepAt(impls, kw, false, 1)) == s1;
    assert MainLoop(steps, 2, s0) == MainLoop(steps, 1, s1);
    assert StepAt(impls, kw, false, 0).goOn == true && Apply(s1, 0, StepAt(impls, kw, false, 0)) == s2;
    assert MainLoop(steps, 1, s1) == MainLoop(steps, 0, s2);
    MainLoopSummary(steps, |impls|, Initial());
    assert MainPhase(impls, kw, false) == s2;
    assert s2.teardowns == [1, 0];
    var o0 := Outcome(Many([]), None);
    var o1 := Outcome(Many([]), Some(ImplError(1)));
    assert impls[0].teardown(o0) == Resumed(o0, TeardownRaise(ImplError(1)));
    assert impls[1].teardown(o1) == Resumed(o1, TeardownRaise(ImplError(2)));
    assert [1, 0][..1] == [1];
    assert Teardowns(impls, [1, 0], o0, s2.trace)
        == Teardowns(impls, [1], o1, s2.trace + [Teardown(0, o0)]);
  }
}
