/** The throttle that paces preview redraws during a resize (`throttle` with
    `THROTTLE_LIMIT_MS`): a call runs at once when the last run is at least `limit`
    milliseconds ago, and otherwise arms one timer for the moment that distance is
    reached; the timer runs the arguments of the latest call. Time is an input:
    every call and every timer firing carries the clock reading it sees. */
module Throttle {
  import opened Wrappers

  /** `THROTTLE_LIMIT_MS`. */
  const PreviewLimitMs: int := 100

  /** `timeoutId` (the armed timer's due time), `lastRanArgs`, `lastExecutionTime`. */
  datatype State<A> = State(pending: Option<int>, lastArgs: Option<A>, lastExec: int)

  /** A fresh throttle: nothing armed, no arguments, last run at time 0. */
  function Init<A>(): State<A> {
    State(None, None, 0)
  }

  /** A call at `now`, the armed timer firing at `now`, or `cancel()`. */
  datatype Step<A> = Call(now: int, args: A) | Fire(now: int) | Cancel

  /** An armed timer is due `limit` after the last run. */
  predicate Armed<A>(st: State<A>, limit: int) {
    st.pending.Some? ==> st.pending.value == st.lastExec + limit && st.lastArgs.Some?
  }

  /** One step: the new state and the arguments the wrapped function ran with, if it ran. */
  function StepOf<A>(limit: int, st: State<A>, step: Step<A>): (r: (State<A>, Option<A>))
    requires Armed(st, limit)
    ensures Armed(r.0, limit)
    ensures r.1.Some? ==> step.Call? || step.Fire?
    ensures r.1.Some? ==> step.now >= st.lastExec + limit && r.0.lastExec == step.now && r.0.pending.None?
    ensures r.1.None? ==> r.0.lastExec == st.lastExec
    ensures step.Call? ==> r.0.lastArgs == Some(step.args)
    ensures step.Call? && r.1.Some? ==> r.1 == Some(step.args)
    ensures step.Fire? && r.1.Some? ==> r.1 == st.lastArgs
    ensures !step.Call? ==> r.0.lastArgs == st.lastArgs
    ensures step.Cancel? ==> r.0.pending.None?
    ensures step.Call? && st.pending.None? && r.1.None? ==> r.0.pending == Some(st.lastExec + limit)
    ensures step.Fire? && st.pending.Some? && step.now >= st.pending.value ==> r.1 == st.lastArgs
    ensures st.pending.None? && !step.Call? ==> r.1.None? && r.0.pending.None?
  {
    match step
    case Call(now, args) =>
      if st.pending.Some? then (st.(lastArgs := Some(args)), None)
      else if now - st.lastExec >= limit then (State(None, Some(args), now), Some(args))
      else (State(Some(st.lastExec + limit), Some(args), st.lastExec), None)
    case Fire(now) =>
      if st.pending.Some? && now >= st.pending.value then (State(None, st.lastArgs, now), st.lastArgs)
      else (st, None)
    case Cancel => (st.(pending := None), None)
  }

  /** A sequence of steps: the final state and, per step, what ran. */
  function Run<A>(limit: int, st: State<A>, steps: seq<Step<A>>): (r: (State<A>, seq<Option<A>>))
    requires Armed(st, limit)
    ensures Armed(r.0, limit)
    ensures |r.1| == |steps|
    decreases |steps|
  {
    if steps == [] then (st, [])
    else
      var (st1, out) := StepOf(limit, st, steps[0]);
      var (st2, outs) := Run(limit, st1, steps[1..]);
      (st2, [out] + outs)
  }

  /** The arguments of the latest call among the steps, or `init` when there is none. */
  function LatestArgs<A>(steps: seq<Step<A>>, init: Option<A>): Option<A>
    decreases |steps|
  {
    if steps == [] then init
    else if steps[|steps| - 1].Call? then Some(steps[|steps| - 1].args)
    else LatestArgs(steps[..|steps| - 1], init)
  }

  lemma {:induction false} LatestArgsCons<A>(step: Step<A>, steps: seq<Step<A>>, init: Option<A>)
    ensures LatestArgs([step] + steps, init) == LatestArgs(steps, if step.Call? then Some(step.args) else init)
    decreases |steps|
  {
    if steps != [] {
      assert ([step] + steps)[..|[step] + steps| - 1] == [step] + steps[..|steps| - 1];
      LatestArgsCons(step, steps[..|steps| - 1], init);
    } else {
      assert ([step] + steps)[..0] == [];
    }
  }

  /** Runs are spaced: every run is at least `limit` after the last run before the
      steps, and any two runs are at least `limit` apart. The clock readings need
      not increase. */
  lemma {:induction false} RunsSpaced<A>(limit: int, st: State<A>, steps: seq<Step<A>>)
    requires limit >= 0 && Armed(st, limit)
    ensures var outs := Run(limit, st, steps).1;
            forall k | 0 <= k < |steps| && outs[k].Some? :: !steps[k].Cancel? && steps[k].now >= st.lastExec + limit
    ensures var outs := Run(limit, st, steps).1;
            forall k1, k2 | 0 <= k1 < k2 < |steps| && outs[k1].Some? && outs[k2].Some? ::
              !steps[k1].Cancel? && !steps[k2].Cancel? && steps[k2].now >= steps[k1].now + limit
    decreases |steps|
  {
    if steps != [] {
      var (st1, out) := StepOf(limit, st, steps[0]);
      RunsSpaced(limit, st1, steps[1..]);
      var outs := Run(limit, st, steps).1;
      assert outs == [out] + Run(limit, st1, steps[1..]).1;
      forall k | 0 <= k < |steps| && outs[k].Some?
        ensures !steps[k].Cancel? && steps[k].now >= st.lastExec + limit
      {
        if k > 0 {
          assert steps[k] == steps[1..][k - 1];
        }
      }
      forall k1, k2 | 0 <= k1 < k2 < |steps| && outs[k1].Some? && outs[k2].Some?
        ensures !steps[k1].Cancel? && !steps[k2].Cancel? && steps[k2].now >= steps[k1].now + limit
      {
        assert steps[k2] == steps[1..][k2 - 1];
        if k1 > 0 {
          assert steps[k1] == steps[1..][k1 - 1];
        }
      }
    }
  }

  /** Every run uses the arguments of the latest call so far: a call that had to
      wait is not lost but superseded by the calls after it. */
  lemma {:induction false} RunsUseLatestArgs<A>(limit: int, st: State<A>, steps: seq<Step<A>>)
    requires Armed(st, limit)
    ensures var outs := Run(limit, st, steps).1;
            forall k | 0 <= k < |steps| && outs[k].Some? :: outs[k] == LatestArgs(steps[..k + 1], st.lastArgs)
    ensures Run(limit, st, steps).0.lastArgs == LatestArgs(steps, st.lastArgs)
    decreases |steps|
  {
    if steps == [] {
    } else {
      var (st1, out) := StepOf(limit, st, steps[0]);
      RunsUseLatestArgs(limit, st1, steps[1..]);
      var outs := Run(limit, st, steps).1;
      assert outs == [out] + Run(limit, st1, steps[1..]).1;
      assert st1.lastArgs == if steps[0].Call? then Some(steps[0].args) else st.lastArgs;
      LatestArgsCons(steps[0], steps[1..], st.lastArgs);
      assert [steps[0]] + steps[1..] == steps;
      forall k | 0 <= k < |steps| && outs[k].Some?
        ensures outs[k] == LatestArgs(steps[..k + 1], st.lastArgs)
      {
        if k == 0 {
          assert steps[..1] == [steps[0]];
          assert steps[..1][..0] == [];
        } else {
          assert steps[..k + 1] == [steps[0]] + steps[1..][..k];
          LatestArgsCons(steps[0], steps[1..][..k], st.lastArgs);
        }
      }
    }
  }

  /** After `cancel()` nothing runs until the next call. */
  lemma {:induction false} CancelStopsRuns<A>(limit: int, st: State<A>, steps: seq<Step<A>>)
    requires Armed(st, limit)
    requires forall k | 0 <= k < |steps| :: !steps[k].Call?
    ensures var outs := Run(limit, st, [Cancel] + steps).1;
            forall k | 0 <= k < |outs| :: outs[k].None?
    decreases |steps|
  {
    var (st1, out) := StepOf(limit, st, Cancel);
    assert ([Cancel] + steps)[1..] == steps;
    NothingArmedNothingRuns(limit, st1, steps);
    var outs := Run(limit, st, [Cancel] + steps).1;
    assert outs == [out] + Run(limit, st1, steps).1;
  }

  lemma {:induction false} NothingArmedNothingRuns<A>(limit: int, st: State<A>, steps: seq<Step<A>>)
    requires Armed(st, limit) && st.pending.None?
    requires forall k | 0 <= k < |steps| :: !steps[k].Call?
    ensures var outs := Run(limit, st, steps).1;
            forall k | 0 <= k < |outs| :: outs[k].None?
    decreases |steps|
  {
    if steps != [] {
      var st1 := StepOf(limit, st, steps[0]).0;
      forall k | 0 <= k < |steps[1..]| ensures !steps[1..][k].Call? {
        assert steps[1..][k] == steps[k + 1];
      }
      NothingArmedNothingRuns(limit, st1, steps[1..]);
      var outs := Run(limit, st, steps).1;
      assert outs == [StepOf(limit, st, steps[0]).1] + Run(limit, st1, steps[1..]).1;
    }
  }

  /** A waiting call is run by the timer once it is due, with the latest arguments. */
  lemma DeferredCallRuns<A>(limit: int, st: State<A>, now: int, args: A, later: int)
    requires Armed(st, limit) && st.pending.None? && now - st.lastExec < limit
    requires later >= st.lastExec + limit
    ensures var st1 := StepOf(limit, st, Call(now, args)).0;
            StepOf(limit, st, Call(now, args)).1.None?
            && StepOf(limit, st1, Fire(later)).1 == Some(args)
  {
  }
}
