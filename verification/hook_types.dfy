/** Values, failures and outcomes exchanged by the hook call loop.

    A hook implementation is described abstractly: its argument names and
    its behaviour, as total functions from what it is given to how it ends.
    Python's objects become the type parameter V (results and argument
    values are opaque to the call loop); Python's `None` is the absence of a
    value, `Option.None`. */
module HookTypes {

  datatype Option<+T> = None | Some(value: T)

  /** Why the call loop itself declares a wrapper broken. */
  datatype WrapFailReason = DidNotYield | SecondYield

  /** A failure as the call loop sees it: an opaque raised error.
      `HookCallError` and `WrapFail` are the two the loop raises itself;
      `ImplError` is anything an implementation raises of its own accord. */
  datatype Failure =
    | HookCallError(argname: string)
    | WrapFail(impl: nat, reason: WrapFailReason)
    | ImplError(cause: nat)

  /** The result held by an outcome: Python `None`, one value (first-result
      mode, or whatever a wrapper forced), or the list of collected values. */
  datatype HookResult<V> = NoResult | Single(value: V) | Many(values: seq<V>)

  /** The outcome object handed to every wrapper's teardown: a result and
      an optional captured failure. */
  datatype Outcome<V> = Outcome(result: HookResult<V>, failure: Option<Failure>)

  /** What the caller finally receives: the result, or the raised failure. */
  datatype Resolution<V> = Returned(result: HookResult<V>) | Raised(failure: Failure)

  /** How a plain implementation's call ends. */
  datatype CallEnd<V> = Return(value: Option<V>) | CallRaise(failure: Failure)

  /** How driving a wrapper's generator to its first `yield` ends. */
  datatype SetupEnd = Yielded | SetupFinished | SetupRaise(failure: Failure)

  /** How resuming a suspended wrapper with the outcome ends: it finishes,
      it raises, or it yields a second time (and is then closed; closing may
      itself raise, `closeFailure`). */
  datatype TeardownEnd =
    | TeardownFinished
    | TeardownRaise(failure: Failure)
    | YieldedAgain(closeFailure: Option<Failure>)

  /** A teardown may change the outcome object in place before it ends;
      `outcome` is the object as the teardown leaves it. */
  datatype Resumed<V> = Resumed(outcome: Outcome<V>, end: TeardownEnd)

  /** A registered hook implementation, already bound to its plugin. */
  datatype HookImpl<!V> =
    | Plain(argnames: seq<string>, call: seq<V> -> CallEnd<V>)
    | Wrapper(argnames: seq<string>, setup: seq<V> -> SetupEnd, teardown: Outcome<V> -> Resumed<V>)

  /** One observable step of a call: a wrapper's setup, a plain call (each
      with the arguments passed), or a wrapper's teardown (with the outcome
      sent to it). `impl` is the position in the registered list. */
  datatype Event<V> =
    | Setup(impl: nat, args: seq<V>)
    | Call(impl: nat, args: seq<V>)
    | Teardown(impl: nat, seen: Outcome<V>)

  /** Resolving an outcome: raise its failure if it has one, otherwise
      return its result. */
  function GetResult<V>(o: Outcome<V>): (r: Resolution<V>)
    ensures r.Raised? <==> o.failure.Some?
    ensures r.Raised? ==> r.failure == o.failure.value
    ensures r.Returned? ==> r.result == o.result
  {
    match o.failure
    case Some(f) => Raised(f)
    case None => Returned(o.result)
  }
}
