/**
 * `debounce(func, delay)`: the returned wrapper keeps the handle of the last
 * timer it scheduled in `timeout`; every call clears that timer and schedules
 * a new one carrying the call's arguments. Wall-clock time is not modelled:
 * the host's pending timers are a map from handle to the arguments the
 * callback will run with, and a timer firing is an explicit step.
 */
module Debounce {
  import opened Wrappers

  /** The delay the search box uses, in milliseconds. */
  const SearchDelay: nat := 300

  /** Every pending timer of this wrapper is the one whose handle `timeout` holds. */
  ghost predicate OnlyLastPending<A>(scheduled: map<nat, A>, timeout: Option<nat>)
  {
    forall id :: id in scheduled ==> timeout == Some(id)
  }

  /** Hence at most one invocation is ever pending. */
  lemma AtMostOnePending<A>(scheduled: map<nat, A>, timeout: Option<nat>)
    requires OnlyLastPending(scheduled, timeout)
    ensures |scheduled| <= 1
  {
    if timeout.Some? && timeout.value in scheduled {
      assert scheduled.Keys == {timeout.value};
    } else {
      assert scheduled.Keys == {};
    }
  }

  class Debounced<A> {
    /** The variable `timeout` that the wrapper closes over (`undefined` before the first call). */
    var timeout: Option<nat>
    /** The host's timers that this wrapper scheduled and that have neither fired nor been cleared. */
    var scheduled: map<nat, A>
    /** The handle the host's `setTimeout` hands out next. */
    var nextHandle: nat

    ghost predicate Valid()
      reads this
    {
      && OnlyLastPending(scheduled, timeout)
      && (timeout.Some? ==> timeout.value < nextHandle)
    }

    /** `debounce(func, delay)`: nothing is pending yet. */
    constructor ()
      ensures Valid()
      ensures timeout == None && scheduled == map[]
    {
      timeout := None;
      scheduled := map[];
      nextHandle := 0;
    }

    /**
     * One call of the wrapper: `clearTimeout(timeout)` cancels the pending
     * invocation, if any, and `setTimeout` schedules one with these arguments.
     */
    method Call(args: A)
      requires Valid()
      modifies this
      ensures Valid()
      ensures scheduled == map[old(nextHandle) := args]
      ensures timeout == Some(old(nextHandle)) && nextHandle == old(nextHandle) + 1
    {
      if timeout.Some? {
        scheduled := scheduled - {timeout.value};
      }
      var handle := nextHandle;
      nextHandle := nextHandle + 1;
      scheduled := scheduled[handle := args];
      timeout := Some(handle);
    }

    /** The delay of a pending timer elapses: `func` is to run with the arguments it carries. */
    method Fire(handle: nat) returns (args: A)
      requires Valid() && handle in scheduled
      modifies this
      ensures Valid()
      ensures args == old(scheduled)[handle]
      ensures old(timeout) == Some(handle)
      ensures scheduled == map[] && timeout == old(timeout) && nextHandle == old(nextHandle)
    {
      args := scheduled[handle];
      scheduled := scheduled - {handle};
    }
  }
}
