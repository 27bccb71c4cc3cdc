/**
 * MaxAndSkipEnv (stable_baselines3/common/atari_wrappers.py:112-151): repeat
 * each action for `skip` frames, add up the rewards and max-pool the last two
 * frames of the window.
 */
module MaxAndSkip {
  import opened Env

  /** The element-wise maximum of two frames of the same shape. */
  function MaxFrame(a: Frame, b: Frame): (m: Frame)
    requires |a| == |b|
    ensures |m| == |a|
    ensures forall j :: 0 <= j < |m| ==> a[j] <= m[j] && b[j] <= m[j]
    ensures forall j :: 0 <= j < |m| ==> m[j] == a[j] || m[j] == b[j]
  {
    seq(|a|, j requires 0 <= j < |a| => if a[j] < b[j] then b[j] else a[j])
  }

  /**
   * How many times a frame-skip step with `action` steps the environment
   * after the history `h`, at most `n` times and stopping after the first step
   * that reports done, given that its first `i` steps did not report done.
   */
  function StepsTaken(respond: seq<Call> -> Outcome, h: seq<Call>, action: int, n: nat, i: nat): (k: nat)
    requires i <= n
    ensures i <= k <= n
    ensures i < n ==> i < k
    decreases n - i
  {
    if i == n then n
    else if respond(h + Repeat(StepCall(action), i + 1)).done then i + 1
    else StepsTaken(respond, h, action, n, i + 1)
  }

  /** The rewards of the first `k` steps with `action` after the history `h`, added up. */
  function RewardSum(respond: seq<Call> -> Outcome, h: seq<Call>, action: int, k: nat): real
  {
    if k == 0 then 0.0
    else RewardSum(respond, h, action, k - 1) + respond(h + Repeat(StepCall(action), k)).reward
  }

  /**
   * The number of steps taken is the smaller of `n` and one more than the
   * index of the first step that reports done: no step before the last one
   * reports done, and the last one does unless all `n` steps were taken.
   */
  lemma {:induction false} StepsTakenStopsAtFirstDone(respond: seq<Call> -> Outcome, h: seq<Call>, action: int, n: nat, i: nat)
    requires i <= n
    requires forall j :: 1 <= j <= i ==> !respond(h + Repeat(StepCall(action), j)).done
    ensures var k := StepsTaken(respond, h, action, n, i);
      (forall j :: 1 <= j < k ==> !respond(h + Repeat(StepCall(action), j)).done) &&
      (k < n ==> respond(h + Repeat(StepCall(action), k)).done)
    decreases n - i
  {
    if i < n && !respond(h + Repeat(StepCall(action), i + 1)).done {
      StepsTakenStopsAtFirstDone(respond, h, action, n, i + 1);
    }
  }

  /** One more step of the frame-skip loop, in terms of the functions above. */
  lemma SkipIteration(respond: seq<Call> -> Outcome, h: seq<Call>, action: int, n: nat, i: nat)
    requires i < n
    ensures h + Repeat(StepCall(action), i) + [StepCall(action)] == h + Repeat(StepCall(action), i + 1)
    ensures RewardSum(respond, h, action, i + 1) ==
      RewardSum(respond, h, action, i) + respond(h + Repeat(StepCall(action), i + 1)).reward
    ensures StepsTaken(respond, h, action, n, i) ==
      if respond(h + Repeat(StepCall(action), i + 1)).done then i + 1 else StepsTaken(respond, h, action, n, i + 1)
  {
  }

  class MaxAndSkipEnv {
    const env: ScriptedEnv
    const skip: int
    /** The two most recent raw frames kept for max-pooling (`_obs_buffer`). */
    const buffer: array<Frame>

    ghost predicate Valid()
      reads this, buffer
    {
      env.Valid() && buffer.Length == 2 &&
      |buffer[0]| == env.frameSize && |buffer[1]| == env.frameSize
    }

    /** Both buffer slots start as all-zero frames of the environment's shape. */
    constructor (env: ScriptedEnv, skip: int)
      requires env.Valid()
      ensures Valid() && fresh(buffer) && this.env == env && this.skip == skip
      ensures buffer[0] == seq(env.frameSize, _ => 0) && buffer[1] == seq(env.frameSize, _ => 0)
    {
      this.env := env;
      this.skip := skip;
      var zeros := seq(env.frameSize, _ => 0);
      buffer := new Frame[2](_ => zeros);
    }

    /**
     * Step up to `skip` times with `action`, stopping at the first step that
     * reports done. Slot 0 takes the frame of iteration `skip - 2` and slot 1
     * that of iteration `skip - 1`, if the loop gets that far; the returned
     * frame is the maximum of the two slots. With `skip < 1` the source
     * returns an unbound `info`.
     */
    method Step(action: int) returns (r: Result<Transition>)
      requires Valid()
      modifies env, buffer
      ensures Valid()
      ensures skip < 1 ==>
        r == Err(UnboundLocalError) && unchanged(env, buffer)
      ensures 1 <= skip ==>
        var h := old(env.log);
        var k := StepsTaken(env.respond, h, action, skip, 0);
        env.log == h + Repeat(StepCall(action), k) &&
        buffer[0] == (if 2 <= skip && skip - 1 <= k
                      then env.respond(h + Repeat(StepCall(action), skip - 1)).obs
                      else old(buffer[0])) &&
        buffer[1] == (if k == skip then env.respond(env.log).obs else old(buffer[1])) &&
        r == Ok(Transition(MaxFrame(buffer[0], buffer[1]), RewardSum(env.respond, h, action, k),
                           env.respond(env.log).done, env.respond(env.log).info))
    {
      if skip < 1 {
        return Err(UnboundLocalError);
      }
      ghost var h := env.log;
      var totalReward := 0.0;
      var done := false;
      var info: Info := map[];
      var i := 0;
      while i < skip
        invariant 0 <= i <= skip
        invariant env.log == h + Repeat(StepCall(action), i)
        invariant StepsTaken(env.respond, h, action, skip, 0) == StepsTaken(env.respond, h, action, skip, i)
        invariant totalReward == RewardSum(env.respond, h, action, i)
        invariant 0 < i ==> done == env.respond(env.log).done && info == env.respond(env.log).info
        invariant buffer[0] == (if 0 <= skip - 2 < i
                                then env.respond(h + Repeat(StepCall(action), skip - 1)).obs
                                else old(buffer[0]))
        invariant buffer[1] == (if skip - 1 < i then env.respond(env.log).obs else old(buffer[1]))
      {
        SkipIteration(env.respond, h, action, skip, i);
        var t := env.Step(action);
        if i == skip - 2 {
          buffer[0] := t.obs;
        }
        if i == skip - 1 {
          buffer[1] := t.obs;
        }
        totalReward := totalReward + t.reward;
        done, info := t.done, t.info;
        i := i + 1;
        if done {
          break;
        }
      }
      return Ok(Transition(MaxFrame(buffer[0], buffer[1]), totalReward, done, info));
    }

    method Reset() returns (obs: Frame)
      modifies env
      ensures env.log == old(env.log) + [ResetCall] && obs == env.respond(env.log).obs
    {
      obs := env.Reset();
    }
  }
}
