/** `Utils.throttle` and `Utils.debounce` as gates driven by two kinds of event: a call from
    the page and the firing of the wrapper's own timer. Durations are not modelled; a timer
    event stands for "the wait has elapsed". */
module RateLimit {
  import opened Chars

  datatype Event<A> = Call(args: A) | TimerFired

  predicate NoTimer<A>(evs: seq<Event<A>>) { forall i :: 0 <= i < |evs| ==> evs[i].Call? }

  // ---------------------------------------------------------------------------
  // throttle: `inThrottle` closes on a forwarded call and reopens when its timer fires

  /** One event: the new value of `inThrottle` and what is forwarded to the wrapped function. */
  function ThrottleStep<A>(closed: bool, e: Event<A>): (bool, Option<A>)
  {
    match e
    case Call(a) => (true, if closed then None else Some(a))
    case TimerFired => (false, None)
  }

  /** The arguments forwarded over a trace, in order. */
  function ThrottleRun<A>(closed: bool, evs: seq<Event<A>>): seq<A>
    decreases |evs|
  {
    if evs == [] then []
    else
      var (c, out) := ThrottleStep(closed, evs[0]);
      (if out.Some? then [out.value] else []) + ThrottleRun(c, evs[1..])
  }

  /** Without a timer event, an open gate forwards the first call only and a closed gate
      forwards nothing. */
  lemma {:induction false} ThrottleDropsUntilTimer<A>(closed: bool, evs: seq<Event<A>>)
    requires NoTimer(evs)
    ensures ThrottleRun(closed, evs) == if closed || evs == [] then [] else [evs[0].args]
    decreases |evs|
  {
    if evs != [] {
      ThrottleDropsUntilTimer(true, evs[1..]);
    }
  }

  /** After the timer fires, the next call is forwarded whatever came before. */
  lemma ThrottleReopens<A>(closed: bool, a: A, rest: seq<Event<A>>)
    ensures ThrottleRun(closed, [TimerFired, Call(a)] + rest) == [a] + ThrottleRun(true, rest)
  {
    var evs := [TimerFired, Call(a)] + rest;
    assert evs[1..] == [Call(a)] + rest && ([Call(a)] + rest)[1..] == rest;
  }

  /** The throttle wrapper's closure state. */
  class Throttle {
    var inThrottle: bool

    constructor ()
      ensures !inThrottle
    {
      inThrottle := false;
    }

    /** A call: forwarded when the gate is open; the gate is closed afterwards either way. */
    method Invoke<A>(args: A) returns (forwarded: Option<A>)
      modifies this
      ensures (inThrottle, forwarded) == ThrottleStep(old(inThrottle), Call(args))
      ensures forwarded.Some? <==> !old(inThrottle)
      ensures inThrottle
    {
      forwarded := None;
      if !inThrottle {
        forwarded := Some(args);
        inThrottle := true;
      }
    }

    /** The `limit` timer: reopens the gate. */
    method Reopen()
      modifies this
      ensures !inThrottle
    {
      inThrottle := false;
    }
  }

  // ---------------------------------------------------------------------------
  // debounce: every call replaces the pending timer; `immediate` calls on the leading edge

  /** One event: the new pending timer (with the arguments it will pass) and what is
      invoked. A timer event with no timer outstanding cannot happen and changes nothing. */
  function DebounceStep<A>(immediate: bool, pending: Option<A>, e: Event<A>): (Option<A>, Option<A>)
  {
    match e
    case Call(a) => (Some(a), if immediate && pending.None? then Some(a) else None)
    case TimerFired =>
      match pending
      case None => (None, None)
      case Some(a) => (None, if immediate then None else Some(a))
  }

  function DebounceRun<A>(immediate: bool, pending: Option<A>, evs: seq<Event<A>>): seq<A>
    decreases |evs|
  {
    if evs == [] then []
    else
      var (p, out) := DebounceStep(immediate, pending, evs[0]);
      (if out.Some? then [out.value] else []) + DebounceRun(immediate, p, evs[1..])
  }

  /** During a burst of calls the pending timer carries the latest arguments, and only the
      leading edge of a quiet period (`immediate`) invokes anything. */
  lemma {:induction false} DebounceBurst<A>(immediate: bool, pending: Option<A>, evs: seq<Event<A>>)
    requires NoTimer(evs) && evs != []
    ensures DebounceRun(immediate, pending, evs)
            == if immediate && pending.None? then [evs[0].args] else []
    ensures DebounceRun(immediate, pending, evs + [TimerFired])
            == if !immediate then [evs[|evs| - 1].args]
               else if pending.None? then [evs[0].args] else []
    decreases |evs|
  {
    var rest := evs[1..];
    assert (evs + [TimerFired])[1..] == rest + [TimerFired];
    if rest == [] {
      var p := Some(evs[0].args);
      assert DebounceRun(immediate, p, [TimerFired]) == if immediate then [] else [evs[0].args];
    } else {
      DebounceBurst(immediate, Some(evs[0].args), rest);
      assert rest[|rest| - 1] == evs[|evs| - 1];
    }
  }

  /** The debounce wrapper's closure state: the outstanding timer and the arguments
      its callback captured. */
  class Debounce<A> {
    const immediate: bool
    var pending: Option<A>

    constructor (immediate: bool)
      ensures this.immediate == immediate && pending == None
    {
      this.immediate := immediate;
      pending := None;
    }

    /** A call: cancels the outstanding timer, starts a new one, and calls through at once
        only on the leading edge in `immediate` mode. */
    method Invoke(args: A) returns (invoked: Option<A>)
      modifies this
      ensures (pending, invoked) == DebounceStep(immediate, old(pending), Call(args))
      ensures pending == Some(args)
    {
      var callNow := immediate && pending.None?;
      pending := Some(args);
      invoked := if callNow then Some(args) else None;
    }

    /** The outstanding timer fires: clears it and, in trailing mode, calls through with the
        arguments of the last call. */
    method Fire() returns (invoked: Option<A>)
      requires pending.Some?
      modifies this
      ensures (pending, invoked) == DebounceStep(immediate, old(pending), TimerFired)
      ensures pending == None
    {
      invoked := if immediate then None else pending;
      pending := None;
    }
  }
}
