/**
 * NoopResetEnv (stable_baselines3/common/atari_wrappers.py:15-43): on reset,
 * take a number of no-op actions so that episodes start in varied states.
 */
module NoopReset {
  import opened Env

  /**
   * The number of no-ops a reset takes: the override when one is given,
   * otherwise the random draw `draw` from [1, noopMax]. The draw fails when
   * that range is empty, and a count that is not positive fails the assert.
   */
  function NoopCount(overrideNumNoops: Option<int>, noopMax: int, draw: int): (r: Result<nat>)
    requires overrideNumNoops.None? && 1 <= noopMax ==> 1 <= draw <= noopMax
    ensures overrideNumNoops.Some? ==>
      (r.Ok? <==> overrideNumNoops.value > 0) &&
      (r.Ok? ==> r.value == overrideNumNoops.value)
    ensures overrideNumNoops.None? ==>
      (r.Ok? <==> 1 <= noopMax) &&
      (r.Ok? ==> 1 <= r.value <= noopMax)
    ensures r.Ok? ==> r.value > 0
    ensures overrideNumNoops.None? && 1 <= noopMax ==> r == Ok(draw)
    ensures overrideNumNoops.None? && noopMax < 1 ==> r == Err(ValueError)
    ensures overrideNumNoops.Some? && overrideNumNoops.value <= 0 ==> r == Err(AssertionError)
  {
    match overrideNumNoops
    case Some(n) => if n > 0 then Ok(n) else Err(AssertionError)
    case None => if noopMax < 1 then Err(ValueError) else Ok(draw)
  }

  /** The calls `n` no-op iterations make after the history `h`. */
  function NoopCalls(respond: seq<Call> -> Outcome, h: seq<Call>, n: nat): (t: seq<Call>)
  {
    if n == 0 then []
    else
      var prev := NoopCalls(respond, h, n - 1);
      prev + StepThenResetIfDone(respond, h + prev, 0)
  }

  /** The no-op loop steps exactly `n` times, always with action 0. */
  lemma {:induction false} NoopCallsActions(respond: seq<Call> -> Outcome, h: seq<Call>, n: nat)
    ensures Actions(NoopCalls(respond, h, n)) == seq(n, _ => 0)
  {
    if n > 0 {
      var prev := NoopCalls(respond, h, n - 1);
      var it := StepThenResetIfDone(respond, h + prev, 0);
      NoopCallsActions(respond, h, n - 1);
      ActionsConcat(prev, it);
      StepThenResetIfDoneActions(respond, h + prev, 0);
      assert seq(n - 1, _ => 0) + [0] == seq(n, _ => 0);
    }
  }

  /** The no-op loop resets the environment right after every step that reports done, and at no other point. */
  lemma {:induction false} NoopCallsResetAfterDone(respond: seq<Call> -> Outcome, h: seq<Call>, n: nat)
    ensures ResetExactlyAfterDone(respond, h, NoopCalls(respond, h, n))
    ensures n > 0 ==> NoopCalls(respond, h, n)[0] == StepCall(0)
  {
    if n > 0 {
      var prev := NoopCalls(respond, h, n - 1);
      NoopCallsResetAfterDone(respond, h, n - 1);
      ResetExactlyAfterDoneAppend(respond, h, prev, 0);
    }
  }

  class NoopResetEnv {
    const env: ScriptedEnv
    const noopMax: int
    const overrideNumNoops: Option<int>
    const noopAction: int := 0

    /** Action 0 of the wrapped environment must be the no-op. */
    constructor (env: ScriptedEnv, noopMax: int, overrideNumNoops: Option<int>)
      requires |env.actionMeanings| > 0 && env.actionMeanings[0] == "NOOP"
      ensures this.env == env && this.noopMax == noopMax
      ensures this.overrideNumNoops == overrideNumNoops && noopAction == 0
    {
      this.env := env;
      this.noopMax := noopMax;
      this.overrideNumNoops := overrideNumNoops;
    }

    /**
     * Reset the wrapped environment, then take the no-ops, resetting again
     * after any no-op that ends the episode. `draw` is the value the
     * environment's random generator yields in [1, noopMax].
     */
    method Reset(draw: int) returns (r: Result<Frame>)
      requires overrideNumNoops.None? && 1 <= noopMax ==> 1 <= draw <= noopMax
      modifies env
      ensures NoopCount(overrideNumNoops, noopMax, draw).Err? ==>
        r == Err(NoopCount(overrideNumNoops, noopMax, draw).error) &&
        env.log == old(env.log) + [ResetCall]
      ensures NoopCount(overrideNumNoops, noopMax, draw).Ok? ==>
        r.Ok? && r.value == env.respond(env.log).obs &&
        env.log == old(env.log) + [ResetCall] +
          NoopCalls(env.respond, old(env.log) + [ResetCall], NoopCount(overrideNumNoops, noopMax, draw).value)
    {
      var _ := env.Reset();
      ghost var start := env.log;
      var count := NoopCount(overrideNumNoops, noopMax, draw);
      if count.Err? {
        return Err(count.error);
      }
      var noops := count.value;
      var obs: Frame := [];
      for i := 0 to noops
        invariant env.log == start + NoopCalls(env.respond, start, i)
        invariant i > 0 ==> obs == env.respond(env.log).obs
      {
        ghost var before := env.log;
        var t := env.Step(noopAction);
        obs := t.obs;
        if t.done {
          obs := env.Reset();
        }
        assert env.log == before + StepThenResetIfDone(env.respond, before, 0);
      }
      return Ok(obs);
    }
  }
}
