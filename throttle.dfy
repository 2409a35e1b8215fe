/**
  One wrapped instance returned by `throttle(func, limit)`, as an object whose
  fields the wrapper and its timer callback update in place. Each method is
  tied to one step of `ThrottleSpec.Step`, so everything proved there about
  runs of events holds of any sequence of calls on the object.
*/
module Throttle {
  import opened ThrottleSpec

  class Throttled<R, A> {
    /** The `limit` argument. Only a label here: timer expiry is an event, not a time. */
    const limit: int
    /** The captured `inThrottle` flag. */
    var suppressed: bool
    /** Un-suppress callbacks handed to `setTimeout` and not yet run. */
    var pendingTimers: nat
    /** Every `func.apply(this, args)` made so far, in order: the effect of `func`, not state the closure keeps. */
    ghost var log: seq<Invocation<R, A>>

    /** The object's state as a value of the state machine. */
    ghost function Snapshot(): State<R, A>
      reads this
    {
      State(suppressed, pendingTimers, log)
    }

    /** One timer is pending exactly while the flag is set. */
    ghost predicate Valid()
      reads this
    {
      ThrottleSpec.Valid(Snapshot())
    }

    /** `throttle(func, limit)`: the flag starts `undefined`, which is falsy, and no timer exists. */
    constructor (limit: int)
      ensures Valid()
      ensures Snapshot() == Init()
      ensures this.limit == limit
    {
      this.limit := limit;
      suppressed := false;
      pendingTimers := 0;
      log := [];
    }

    /**
      A call of the wrapper with receiver `receiver` and arguments `args`;
      `throws` says whether `func` throws on this call. The outcome is Dropped
      exactly when the flag was set, and then nothing changes. Otherwise `func`
      is applied to this call's receiver and arguments; if it returns, the flag
      is set and exactly one timer is pending; if it throws, the exception
      propagates before the flag is set or any timer is scheduled.
    */
    method Call(receiver: R, args: seq<A>, throws: bool) returns (outcome: Outcome)
      requires Valid()
      modifies this
      ensures Valid()
      ensures (Snapshot(), outcome) == Step(old(Snapshot()), Invoke(Invocation(receiver, args), throws))
      ensures outcome == Dropped <==> old(suppressed)
      ensures outcome == Dropped ==> Snapshot() == old(Snapshot())
      ensures outcome != Dropped ==> log == old(log) + [Invocation(receiver, args)]
      ensures outcome == Completed ==> !throws && suppressed && pendingTimers == 1
      ensures outcome == Raised ==> throws && !suppressed && pendingTimers == 0
    {
      if suppressed {
        outcome := Dropped;
        return;
      }
      log := log + [Invocation(receiver, args)];
      if throws {
        outcome := Raised;
        return;
      }
      suppressed := true;
      pendingTimers := pendingTimers + 1;
      outcome := Completed;
    }

    /** The callback `() => inThrottle = false` of a scheduled timer runs: the wrapper is open again. */
    method TimerExpires()
      requires Valid() && pendingTimers > 0
      modifies this
      ensures Valid()
      ensures Snapshot() == Step(old(Snapshot()), TimerFires).0
      ensures !suppressed && pendingTimers == old(pendingTimers) - 1 && log == old(log)
    {
      suppressed := false;
      pendingTimers := pendingTimers - 1;
    }
  }
}
