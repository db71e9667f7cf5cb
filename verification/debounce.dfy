/**
 * `debounce(fn, ms)`: the returned wrapper keeps one timeout handle,
 * `timer`, in its closure. Each call returns a promise; a call that finds a
 * timeout pending clears it and resolves its own, new promise with
 * `'cancel'`; then it schedules a timeout that runs `fn` with the call's
 * parameters, resets `timer` and resolves that same promise with `'done'`.
 *
 * The host's timeouts are explicit here: `pending` is the table of
 * timeouts this wrapper has scheduled and not cleared, keyed by the handle
 * `setTimeout` returned, and `Fire` is the host running one of them. A
 * promise resolves at most once; the first resolution wins.
 */
module Debounce {
  import opened Wrappers

  const DefaultDelay := 200

  datatype Signal = Cancel | Done

  datatype Promise = Pending | Resolved(signal: Signal)

  /** The closure a timeout runs: the call's parameters and the call's promise. */
  datatype Callback<P> = Callback(params: P, promise: nat)

  /** `rev(signal)` on a promise that may already be resolved. */
  function Settle(p: Promise, signal: Signal): Promise
  {
    if p.Pending? then Resolved(signal) else p
  }

  class Debouncer<P> {
    const ms: nat
    /** The closure variable `timer`: 0, or the handle of the pending timeout. */
    var timer: nat
    /** The last handle the host handed out; handles are positive and never reused. */
    var lastHandle: nat
    /** Timeouts scheduled by this wrapper and not cleared or run yet. */
    var pending: map<nat, Callback<P>>
    /** The promise of every call, in call order. */
    var promises: seq<Promise>
    /** The parameters of every run of `fn`, in order. */
    var runs: seq<P>

    /**
     * At most one timeout is pending, `timer` is its handle, and it belongs
     * to the latest call, whose promise has not been resolved with `Done`.
     */
    ghost predicate Valid()
      reads this
    {
      && timer <= lastHandle
      && (timer == 0 ==> pending == map[])
      && (timer != 0 ==>
            && pending.Keys == {timer}
            && |promises| > 0
            && pending[timer].promise == |promises| - 1
            && promises[|promises| - 1] != Resolved(Done))
    }

    /** The promise a pending timeout would resolve, if there is one. */
    ghost function Live(): Option<nat>
      reads this
      requires Valid()
    {
      if timer == 0 then None else Some(pending[timer].promise)
    }

    constructor (ms: nat)
      ensures Valid()
      ensures this.ms == ms && timer == 0 && pending == map[] && promises == [] && runs == []
    {
      this.ms := ms;
      timer := 0;
      lastHandle := 0;
      pending := map[];
      promises := [];
      runs := [];
    }

    /**
     * A call of the wrapper: clears the pending timeout if any, resolving
     * the NEW promise `p` with `Cancel`, and schedules a timeout for this
     * call. The superseded call's promise is left as it was.
     */
    method Call(params: P) returns (p: nat)
      requires Valid()
      modifies this
      ensures Valid()
      ensures p == old(|promises|)
      ensures promises == old(promises) + [if old(timer) != 0 then Resolved(Cancel) else Pending]
      ensures timer != 0 && timer !in old(pending) && pending == map[timer := Callback(params, p)]
      ensures Live() == Some(p)
      ensures runs == old(runs)
    {
      promises := promises + [Pending];
      p := |promises| - 1;
      if timer != 0 {
        pending := pending - {timer};
        promises := promises[p := Settle(promises[p], Cancel)];
      }
      lastHandle := lastHandle + 1;
      timer := lastHandle;
      pending := pending[timer := Callback(params, p)];
    }

    /**
     * The host runs the pending timeout `handle`: `fn` runs once with that
     * call's parameters, `timer` resets to 0, and that call's promise gets
     * `Done` unless it was already resolved with `Cancel`.
     */
    method Fire(handle: nat)
      requires Valid() && handle in pending
      modifies this
      ensures Valid()
      ensures var cb := old(pending[handle]);
        && handle == old(timer)
        && runs == old(runs) + [cb.params]
        && promises == old(promises)[cb.promise := Settle(old(promises[cb.promise]), Done)]
        && (promises[cb.promise] == Resolved(Done) <==> old(promises[cb.promise]) == Pending)
      ensures timer == 0 && pending == map[] && Live() == None
      ensures forall i :: 0 <= i < |promises| && Some(i) != old(Live()) ==> promises[i] == old(promises[i])
    {
      var cb := pending[handle];
      runs := runs + [cb.params];
      timer := 0;
      pending := pending - {handle};
      promises := promises[cb.promise := Settle(promises[cb.promise], Done)];
    }
  }

  /**
   * Three calls in a burst and then the timeout: `fn` runs once, with the
   * last call's parameters; the first call's promise never resolves and the
   * other two resolve with `Cancel`.
   */
  method Burst<P>(a: P, b: P, c: P) returns (promises: seq<Promise>, runs: seq<P>)
    ensures promises == [Pending, Resolved(Cancel), Resolved(Cancel)]
    ensures runs == [c]
  {
    var d := new Debouncer<P>(DefaultDelay);
    var pa := d.Call(a);
    var pb := d.Call(b);
    var pc := d.Call(c);
    d.Fire(d.timer);
    promises, runs := d.promises, d.runs;
  }

  /** A single call followed by its timeout resolves with `Done` after `fn` runs. */
  method Single<P>(a: P) returns (promises: seq<Promise>, runs: seq<P>)
    ensures promises == [Resolved(Done)]
    ensures runs == [a]
  {
    var d := new Debouncer<P>(DefaultDelay);
    var pa := d.Call(a);
    d.Fire(d.timer);
    promises, runs := d.promises, d.runs;
  }
}
