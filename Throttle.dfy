/** The throttle wrapper: one flag, `inThrottle`, set when a call runs the
    wrapped function and cleared when the cooldown timer fires. Time is not
    modelled; the timer's expiry is an event of its own. */
module Throttle {

  datatype Event = Call | Expire

  /** The flag after an event, and whether the wrapped function ran. */
  datatype Outcome = Outcome(throttled: bool, ran: bool)

  /** One event at the gate. */
  function Step(throttled: bool, e: Event): (o: Outcome)
    ensures o.ran <==> e == Call && !throttled
    ensures o.throttled <==> e == Call
  {
    match e
    case Call => if throttled then Outcome(true, false) else Outcome(true, true)
    case Expire => Outcome(false, false)
  }

  /** The flag after a sequence of events. */
  function After(throttled: bool, events: seq<Event>): bool
    decreases |events|
  {
    if events == [] then throttled
    else After(Step(throttled, events[0]).throttled, events[1..])
  }

  /** How many times the wrapped function runs over a sequence of events. */
  function Runs(throttled: bool, events: seq<Event>): nat
    decreases |events|
  {
    if events == [] then 0
    else
      var o := Step(throttled, events[0]);
      (if o.ran then 1 else 0) + Runs(o.throttled, events[1..])
  }

  /** A timer fires only after a run scheduled it, and once: an expiry
      happens only while the gate is throttled. */
  predicate Feasible(throttled: bool, events: seq<Event>)
    decreases |events|
  {
    if events == [] then true
    else (events[0] == Expire ==> throttled) && Feasible(Step(throttled, events[0]).throttled, events[1..])
  }

  function Calls(n: nat): (r: seq<Event>)
    ensures |r| == n && forall i :: 0 <= i < n ==> r[i] == Call
  {
    if n == 0 then [] else [Call] + Calls(n - 1)
  }

  /** `n` calls each followed by the cooldown's expiry. */
  function Spaced(n: nat): (r: seq<Event>)
    ensures |r| == 2 * n
  {
    if n == 0 then [] else [Call, Expire] + Spaced(n - 1)
  }

  function Expiries(events: seq<Event>): nat {
    if events == [] then 0 else (if events[0] == Expire then 1 else 0) + Expiries(events[1..])
  }

  /** Calls while throttled are dropped: none of them runs and the gate stays
      throttled. */
  lemma {:induction false} ThrottledCallsDropped(n: nat)
    ensures Runs(true, Calls(n)) == 0 && After(true, Calls(n))
  {
    if n > 0 {
      ThrottledCallsDropped(n - 1);
      assert Calls(n)[1..] == Calls(n - 1);
    }
  }

  /** A burst of calls inside one cooldown runs the function exactly once. */
  lemma BurstRunsOnce(n: nat)
    requires n > 0
    ensures Runs(false, Calls(n)) == 1 && After(false, Calls(n))
  {
  }

  /** Calls spaced beyond the cooldown each run. */
  lemma {:induction false} SpacedCallsAllRun(n: nat)
    ensures Runs(false, Spaced(n)) == n && !After(false, Spaced(n)) && Feasible(false, Spaced(n))
  {
    if n > 0 {
      SpacedCallsAllRun(n - 1);
      var s := Spaced(n);
      assert s[1..][1..] == Spaced(n - 1);
    }
  }

  /** Dropped calls are not queued: events after them behave exactly as if
      the dropped calls had never been made. */
  lemma {:induction false} DroppedCallsLeaveNoTrace(n: nat, rest: seq<Event>)
    ensures Runs(true, Calls(n) + rest) == Runs(true, rest)
    ensures After(true, Calls(n) + rest) == After(true, rest)
  {
    if n == 0 {
      assert Calls(n) + rest == rest;
    } else {
      DroppedCallsLeaveNoTrace(n - 1, rest);
      assert (Calls(n) + rest)[0] == Call;
      assert (Calls(n) + rest)[1..] == Calls(n - 1) + rest;
    }
  }

  /** Only the timer clears the flag: without an expiry a throttled gate
      stays throttled whatever is called. */
  lemma {:induction false} OnlyExpiryClears(events: seq<Event>)
    requires forall i :: 0 <= i < |events| ==> events[i] != Expire
    ensures After(true, events)
  {
    if events != [] {
      OnlyExpiryClears(events[1..]);
    }
  }

  /** The rate bound: every run but the first needs an expiry before it. */
  lemma {:induction false} RunsBoundedByExpiries(throttled: bool, events: seq<Event>)
    ensures Runs(throttled, events) <= Expiries(events) + (if throttled then 0 else 1)
    decreases |events|
  {
    if events != [] {
      RunsBoundedByExpiries(Step(throttled, events[0]).throttled, events[1..]);
    }
  }

  /** In a feasible trace every expiry belongs to an earlier run (or to the
      timer already pending), so with the bound above the runs are the
      expiries give or take one. */
  lemma {:induction false} ExpiriesBoundedByRuns(throttled: bool, events: seq<Event>)
    requires Feasible(throttled, events)
    ensures Expiries(events) <= Runs(throttled, events) + (if throttled then 1 else 0)
    decreases |events|
  {
    if events != [] {
      ExpiriesBoundedByRuns(Step(throttled, events[0]).throttled, events[1..]);
    }
  }

  /** The closure state of one `throttle(func, limit)` wrapper. */
  class Gate {
    var inThrottle: bool

    /** `let inThrottle;` starts undefined, which tests as false. */
    constructor ()
      ensures !inThrottle
    {
      inThrottle := false;
    }

    /** A call to the wrapper; `ran` says whether the wrapped function ran. */
    method Invoke() returns (ran: bool)
      modifies this
      ensures Step(old(inThrottle), Call) == Outcome(inThrottle, ran)
    {
      ran := !inThrottle;
      if ran {
        inThrottle := true;
      }
    }

    /** The cooldown timer scheduled by the last run fires. */
    method TimerExpired()
      requires inThrottle
      modifies this
      ensures Step(old(inThrottle), Expire) == Outcome(inThrottle, false)
    {
      inThrottle := false;
    }
  }
}
