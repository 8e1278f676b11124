/** `once`: wraps a callback so that only its first invocation runs it. */
module OnceGuard {

  /** The wrapper returned by `once(fn)`. `fired` is the flag the wrapper
      closes over; `runs` counts how many times the wrapped callback has
      executed, which is the only effect the callback is observed by. */
  class Once {
    var fired: bool
    var runs: nat

    /** The callback has run exactly when the flag is set, and at most once. */
    ghost predicate Valid()
      reads this
    {
      runs == if fired then 1 else 0
    }

    /** `once(fn)`: nothing has run yet. */
    constructor ()
      ensures Valid() && !fired && runs == 0
    {
      fired := false;
      runs := 0;
    }

    /** One invocation of the wrapper: the first runs the callback and sets
        the flag, every later one does nothing. */
    method Call()
      requires Valid()
      modifies this
      ensures Valid() && fired
      ensures runs == if old(fired) then old(runs) else old(runs) + 1
    {
      if !fired {
        fired := true;
        runs := runs + 1;
      }
    }
  }

  /** However many times the wrapper is invoked, the callback runs once if
      it is invoked at all. */
  method CallRepeatedly(n: nat) returns (attempts: nat)
    ensures attempts == if n == 0 then 0 else 1
  {
    var fn := new Once();
    var k := 0;
    while k < n
      invariant 0 <= k <= n
      invariant fn.Valid() && fn.fired == (k > 0)
    {
      fn.Call();
      k := k + 1;
    }
    attempts := fn.runs;
  }
}
