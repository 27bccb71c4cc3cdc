/**
 * EpisodicLifeEnv (stable_baselines3/common/atari_wrappers.py:68-109): every
 * lost life ends an episode for the learner, while the game itself is only
 * reset after a real game over.
 */
module EpisodicLife {
  import opened Env

  /**
   * The done flag the learner sees after a step: a real game over, or a life
   * lost while some lives remain.
   */
  function LifeDone(innerDone: bool, livesBefore: int, livesNow: int): (done: bool)
    ensures innerDone ==> done
    ensures done && !innerDone ==> 0 < livesNow < livesBefore
    ensures !innerDone && 0 < livesNow < livesBefore ==> done
    ensures livesNow >= livesBefore || livesNow <= 0 ==> done == innerDone
  {
    if 0 < livesNow < livesBefore then true else innerDone
  }

  /** The one call a reset makes: a real reset after a game over, otherwise a no-op step. */
  function ResetCallFor(wasRealDone: bool): (c: Call)
    ensures c == ResetCall <==> wasRealDone
    ensures c.StepCall? ==> c.action == 0
  {
    if wasRealDone then ResetCall else StepCall(0)
  }

  class EpisodicLifeEnv {
    const env: ScriptedEnv
    /** The life counter seen after the latest call. */
    var lives: int
    /** Whether the latest step ended the game for real. */
    var wasRealDone: bool

    constructor (env: ScriptedEnv)
      ensures this.env == env && lives == 0 && wasRealDone
    {
      this.env := env;
      lives := 0;
      wasRealDone := true;
    }

    method Step(action: int) returns (t: Transition)
      modifies this, env
      ensures env.log == old(env.log) + [StepCall(action)]
      ensures var inner := env.respond(env.log);
        t.obs == inner.obs && t.reward == inner.reward && t.info == inner.info &&
        wasRealDone == inner.done &&
        t.done == LifeDone(inner.done, old(lives), inner.lives) &&
        lives == inner.lives
    {
      t := env.Step(action);
      wasRealDone := t.done;
      var livesNow := env.Lives();
      if 0 < livesNow < lives {
        t := t.(done := true);
      }
      lives := livesNow;
    }

    method Reset() returns (obs: Frame)
      modifies this, env
      ensures env.log == old(env.log) + [ResetCallFor(old(wasRealDone))]
      ensures obs == env.respond(env.log).obs
      ensures lives == env.Lives() && wasRealDone == old(wasRealDone)
    {
      if wasRealDone {
        obs := env.Reset();
      } else {
        var t := env.Step(0);
        obs := t.obs;
      }
      lives := env.Lives();
    }
  }

  /**
   * A fresh wrapper is reset, then loses a life without a game over: the
   * step ends the learner's episode, and the reset that follows steps the
   * game on with a no-op instead of resetting it.
   */
  method LifeLossKeepsGameRunning(env: ScriptedEnv, action: int) returns (done: bool)
    requires var afterReset := env.log + [ResetCall];
      var o := env.respond(afterReset + [StepCall(action)]);
      !o.done && 0 < o.lives < env.respond(afterReset).lives
    modifies env
    ensures done
    ensures env.log == old(env.log) + [ResetCall, StepCall(action), StepCall(0)]
  {
    var wrapper := new EpisodicLifeEnv(env);
    var _ := wrapper.Reset();
    var t := wrapper.Step(action);
    done := t.done;
    var _ := wrapper.Reset();
  }
}
