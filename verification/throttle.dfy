/**
 * `throttle(fn, ms)`: the returned wrapper keeps `start` and `_params` in
 * its closure. A call stores its parameters and, when none were stored,
 * asks the host for an animation frame. The frame handler records the
 * first frame's timestamp in `start`; on the first frame at least `ms`
 * after it, it runs `fn` with the stored parameters and resets both
 * variables, and otherwise it asks for another frame.
 *
 * Frames are explicit here: `Frame(ts)` is the host running the handlers
 * queued for the next frame, with an integer timestamp.
 */
module Throttle {
  import opened Wrappers

  const DefaultInterval := 200

  class Throttler<P> {
    const ms: int
    /** The closure variable `start`: 0 until the first frame of a polling chain. */
    var start: int
    /** The closure variable `_params`: the latest parameters, or none. */
    var params: Option<P>
    /** Frame handlers queued with `requestAnimationFrame` and not yet run. */
    var queued: nat
    /** The parameters of every run of `fn`, in order. */
    var runs: seq<P>
    /** The timestamp of the latest frame so far. */
    ghost var now: int
    /** The timestamp of the frame at which `fn` last ran, if it ran. */
    ghost var lastRun: Option<int>

    /**
     * Exactly one polling chain is live, and only while parameters are
     * stored; with none stored, `start` is back at 0. A chain's first frame
     * comes no earlier than the last run of `fn`.
     */
    ghost predicate Valid()
      reads this
    {
      && queued == (if params.Some? then 1 else 0)
      && start >= 0
      && (params.None? ==> start == 0)
      && (lastRun.Some? ==> lastRun.value <= now)
      && (lastRun.Some? && start != 0 ==> start >= lastRun.value)
    }

    constructor (ms: int)
      ensures Valid()
      ensures this.ms == ms && start == 0 && params == None && queued == 0 && runs == []
      ensures now == 0 && lastRun == None
    {
      this.ms := ms;
      now := 0;
      lastRun := None;
      start := 0;
      params := None;
      queued := 0;
      runs := [];
    }

    /**
     * A call of the wrapper: starts a polling chain only when no
     * parameters are stored, then stores its own.
     */
    method Call(ps: P)
      requires Valid()
      modifies this
      ensures Valid()
      ensures params == Some(ps)
      ensures queued == old(queued) + (if old(params).None? then 1 else 0)
      ensures start == old(start) && runs == old(runs)
      ensures now == old(now) && lastRun == old(lastRun)
    {
      if params.None? {
        queued := queued + 1;
      }
      params := Some(ps);
    }

    /**
     * The host runs the next animation frame at time `ts`. Without a
     * polling chain nothing happens. Otherwise the handler runs: the first
     * frame of the chain sets `start`; when `ms` have passed since `start`,
     * `fn` runs with the latest parameters and the state resets, and else
     * the handler is queued again. Frame timestamps never decrease, so two
     * runs of `fn` are at least `ms` apart.
     */
    method Frame(ts: int)
      requires Valid() && ts > 0 && ts >= now
      modifies this
      ensures Valid() && now == ts
      ensures old(params).None? ==>
        && start == old(start) && params == old(params) && queued == old(queued)
        && runs == old(runs) && lastRun == old(lastRun)
      ensures old(params).Some? ==>
        var begun := if old(start) == 0 then ts else old(start);
        if ts - begun >= ms then
          runs == old(runs) + [old(params).value] && params == None && start == 0 && lastRun == Some(ts)
        else
          runs == old(runs) && params == old(params) && start == begun && lastRun == old(lastRun)
      ensures |runs| > |old(runs)| && old(lastRun).Some? ==> ts - old(lastRun).value >= ms
    {
      now := ts;
      if queued > 0 {
        queued := queued - 1;
        if start == 0 {
          start := ts;
        }
        if ts - start >= ms {
          runs := runs + [params.value];
          params := None;
          start := 0;
          lastRun := Some(ts);
        } else {
          queued := queued + 1;
        }
      }
    }
  }

  /**
   * A burst of calls against a 200 ms interval: `fn` runs once per
   * interval, each time with the parameters of the latest call before it.
   */
  method Burst<P>(a: P, b: P, c: P) returns (runs: seq<P>)
    ensures runs == [b, c]
  {
    var t := new Throttler<P>(DefaultInterval);
    t.Call(a);
    t.Frame(16);
    t.Call(b);
    t.Frame(100);
    t.Frame(216);
    t.Call(c);
    t.Frame(232);
    t.Frame(400);
    t.Frame(432);
    runs := t.runs;
  }
}
