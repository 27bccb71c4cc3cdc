/**
 * FireResetEnv (stable_baselines3/common/atari_wrappers.py:46-65): for games
 * that stay frozen until the player fires, press FIRE and then action 2 after
 * every reset.
 */
module FireReset {
  import opened Env

  /** The calls a fire reset makes after the history `h`, up to and including the step with action 2. */
  function FirePrefix(respond: seq<Call> -> Outcome, h: seq<Call>): seq<Call>
  {
    [ResetCall] + StepThenResetIfDone(respond, h + [ResetCall], 1) + [StepCall(2)]
  }

  /** All calls a fire reset makes after the history `h`. */
  function FireCalls(respond: seq<Call> -> Outcome, h: seq<Call>): seq<Call>
  {
    var prefix := FirePrefix(respond, h);
    prefix + (if respond(h + prefix).done then [ResetCall] else [])
  }

  /**
   * A fire reset starts with a reset, then steps with action 1 and then with
   * action 2, and resets right after whichever of those steps reports done
   * and at no other point.
   */
  lemma FireCallsShape(respond: seq<Call> -> Outcome, h: seq<Call>)
    ensures var t := FireCalls(respond, h);
      t[0] == ResetCall && Actions(t) == [1, 2] &&
      ResetExactlyAfterDone(respond, h + [ResetCall], t[1..])
  {
    var h1 := h + [ResetCall];
    var first := StepThenResetIfDone(respond, h1, 1);
    var second := StepThenResetIfDone(respond, h1 + first, 2);
    var t := FireCalls(respond, h);
    FireCallsSplit(respond, h);
    assert t[1..] == first + second;
    assert h1 + [] == h1 && [] + first == first;
    ResetExactlyAfterDoneAppend(respond, h1, [], 1);
    ResetExactlyAfterDoneAppend(respond, h1, first, 2);
    StepThenResetIfDoneActions(respond, h1, 1);
    StepThenResetIfDoneActions(respond, h1 + first, 2);
    ActionsConcat(first, second);
    ActionsConcat([ResetCall], first + second);
  }

  /** The calls of a fire reset: a reset, the first step group, then the second. */
  lemma FireCallsSplit(respond: seq<Call> -> Outcome, h: seq<Call>)
    ensures var first := StepThenResetIfDone(respond, h + [ResetCall], 1);
      FireCalls(respond, h) ==
        [ResetCall] + first + StepThenResetIfDone(respond, h + [ResetCall] + first, 2)
  {
    var first := StepThenResetIfDone(respond, h + [ResetCall], 1);
    var p := FirePrefix(respond, h);
    assert h + p == h + [ResetCall] + first + [StepCall(2)];
  }

  /** The observation a fire reset returns answers the step with action 2, not a reset. */
  lemma FirePrefixEndsWithSecondStep(respond: seq<Call> -> Outcome, h: seq<Call>)
    ensures var p := FirePrefix(respond, h);
      p[|p| - 1] == StepCall(2) && FireCalls(respond, h)[..|p|] == p
  {
  }

  class FireResetEnv {
    const env: ScriptedEnv

    /** Action 1 of the wrapped environment must be FIRE, and there must be at least three actions. */
    constructor (env: ScriptedEnv)
      requires |env.actionMeanings| >= 3 && env.actionMeanings[1] == "FIRE"
      ensures this.env == env
    {
      this.env := env;
    }

    /** Reset, then fire and take action 2, resetting again after either step if it ends the episode. */
    method Reset() returns (obs: Frame)
      modifies env
      ensures env.log == old(env.log) + FireCalls(env.respond, old(env.log))
      ensures obs == env.respond(old(env.log) + FirePrefix(env.respond, old(env.log))).obs
    {
      var _ := env.Reset();
      var t := env.Step(1);
      if t.done {
        var _ := env.Reset();
      }
      t := env.Step(2);
      ghost var afterSecond := env.log;
      if t.done {
        var _ := env.Reset();
      }
      obs := t.obs;
      assert afterSecond == old(env.log) + FirePrefix(env.respond, old(env.log));
    }
  }
}
