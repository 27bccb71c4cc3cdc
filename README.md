# Atari preprocessing wrappers, modelled in Dafny

This project models the Atari preprocessing wrappers of Stable Baselines3
(`stable_baselines3/common/atari_wrappers.py`) and proves what each one does
to the calls it sends to the environment it wraps and to the values it returns:

- `NoopResetEnv` (module `NoopReset`): on reset, take between 1 and `noop_max` no-op
  actions, or exactly `override_num_noops` of them, so that episodes start in varied states.
- `FireResetEnv` (module `FireReset`): after a reset, press FIRE (action 1) and then
  action 2, resetting again after any step that ends the episode.
- `EpisodicLifeEnv` (module `EpisodicLife`): report `done` when a life is lost,
  but reset the game only after a real game over. Otherwise a reset takes one no-op step.
- `MaxAndSkipEnv` (module `MaxAndSkip`): repeat an action up to `skip` times and
  stop at the first `done`. Add up the rewards and return the pixel-wise maximum
  of the two frames kept in a two-slot buffer.
- `ClipRewardEnv` (module `ClipReward`): replace every reward by its sign.
- `AtariWrapper` (module `AtariWrapper`): the order in which the wrappers are stacked.
  Some layers depend on the configuration or on the game's action meanings.

The wrapped Gym environment is `Env.ScriptedEnv`. It records every call in `log`
and answers each call through `respond`, a function of the whole call history
ending in that call. So every wrapper method is specified exactly: the calls it
appends to `log`, and what it returns and stores, both in terms of the answers
to those calls. `respond(h).lives` is the life counter (`ale.lives()`) after the
history `h`. Python exceptions are `Err` values of `Env.Result`.

## Model

| member | source | states |
|---|---|---|
| NoopReset.NoopCount | stable_baselines3/common/atari_wrappers.py:33-37 | The override is used when one is given. It fails the assert exactly when it is not positive. Otherwise the count is the draw from [1, noop_max], and the draw raises ValueError exactly when noop_max < 1. A count that is returned is always positive. |
| NoopReset.NoopCallsActions | stable_baselines3/common/atari_wrappers.py:39-40 | The no-op loop steps the environment exactly `n` times, always with action 0. |
| NoopReset.NoopCallsResetAfterDone | stable_baselines3/common/atari_wrappers.py:39-42 | In the no-op loop, a reset follows a step exactly when that step reports done. No other resets are made. The loop starts with a no-op step. |
| NoopReset.NoopResetEnv.constructor | stable_baselines3/common/atari_wrappers.py:25-29 | Requires action 0 to mean NOOP. Stores the settings, with no-op action 0. |
| NoopReset.NoopResetEnv.Reset | stable_baselines3/common/atari_wrappers.py:31-43 | Always resets the inner environment first. On an invalid count it returns that error and makes no further call. Otherwise the calls are the reset followed by the no-op loop's calls, and it returns the frame of the loop's last call. |
| FireReset.FireCallsShape | stable_baselines3/common/atari_wrappers.py:57-65 | A fire reset is a reset followed by the steps 1 and 2, in that order. A reset follows either step exactly when that step reports done. |
| FireReset.FirePrefixEndsWithSecondStep | stable_baselines3/common/atari_wrappers.py:62-65 | The returned frame answers the step with action 2, even when a reset follows that step. |
| FireReset.FireResetEnv.constructor | stable_baselines3/common/atari_wrappers.py:53-55 | Requires action 1 to mean FIRE and at least three actions. |
| FireReset.FireResetEnv.Reset | stable_baselines3/common/atari_wrappers.py:57-65 | Appends exactly the fire-reset calls to the inner log. Returns the frame of the action-2 step. |
| EpisodicLife.LifeDone | stable_baselines3/common/atari_wrappers.py:81-92 | A real done is always passed on. An extra done is reported exactly when the life counter drops and stays positive. If the counter does not drop, or drops to zero or below, the inner done is unchanged. |
| EpisodicLife.ResetCallFor | stable_baselines3/common/atari_wrappers.py:103-107 | A reset is a real reset exactly after a real game over. Otherwise it is a no-op step with action 0. |
| EpisodicLife.EpisodicLifeEnv.constructor | stable_baselines3/common/atari_wrappers.py:76-78 | Starts with 0 lives and with the last done counted as real. |
| EpisodicLife.EpisodicLifeEnv.Step | stable_baselines3/common/atari_wrappers.py:80-92 | Makes one inner step and passes its frame, reward and info through. Records whether that step's done was real. The returned done is LifeDone over the old and new life counters. Stores the new life counter. |
| EpisodicLife.EpisodicLifeEnv.Reset | stable_baselines3/common/atari_wrappers.py:94-109 | Makes exactly the one call ResetCallFor chooses and returns its frame. Re-reads the life counter and keeps the real-done flag. |
| EpisodicLife.LifeLossKeepsGameRunning | stable_baselines3/common/atari_wrappers.py:80-109 | After a reset, a step that loses a life without a game over ends the learner's episode. The next reset steps the game with a no-op and does not reset it. |
| MaxAndSkip.MaxFrame | stable_baselines3/common/atari_wrappers.py:146 | The pixel-wise maximum of two frames: each pixel is at least both inputs and equal to one of them. |
| MaxAndSkip.StepsTaken | stable_baselines3/common/atari_wrappers.py:135-143 | The loop takes at least one step when skip >= 1, and never more than skip steps. |
| MaxAndSkip.StepsTakenStopsAtFirstDone | stable_baselines3/common/atari_wrappers.py:135-143 | No step before the last one reports done. The last step reports done unless all skip steps were taken. |
| MaxAndSkip.MaxAndSkipEnv.constructor | stable_baselines3/common/atari_wrappers.py:120-123 | Both buffer slots start as zero frames of the observation shape. |
| MaxAndSkip.MaxAndSkipEnv.Step | stable_baselines3/common/atari_wrappers.py:125-148 | With skip < 1 it makes no call and fails on the unbound `info`. Otherwise it repeats the action StepsTaken times. Slot 0 holds frame skip-1 and slot 1 holds frame skip, each only if the loop got that far; otherwise the slot keeps its old frame. It returns the maximum of the two slots, the sum of the rewards, and the last step's done and info. |
| MaxAndSkip.MaxAndSkipEnv.Reset | stable_baselines3/common/atari_wrappers.py:150-151 | Passes the reset straight through. |
| ClipReward.Reward | stable_baselines3/common/atari_wrappers.py:163-170 | The result is -1, 0 or 1, with the same sign as the reward in both directions. |
| AtariWrapper.Layers | stable_baselines3/common/atari_wrappers.py:240-248 | The stack is built exactly when action 0 means NOOP and, if FIRE is an action meaning, action 1 is FIRE and there are at least three actions. An empty action list raises IndexError. |
| AtariWrapper.StackMembers | stable_baselines3/common/atari_wrappers.py:240-248 | The innermost layers are NoopReset and then MaxAndSkip, with the configured settings. WarpFrame is always present. EpisodicLife, FireReset and ClipReward are each present exactly when their condition holds. |
| AtariWrapper.StackAscending | stable_baselines3/common/atari_wrappers.py:240-248 | Each kind of layer occurs at most once, in the fixed order NoopReset, MaxAndSkip, EpisodicLife, FireReset, WarpFrame, ClipReward. |
| AtariWrapper.LayersOrder | stable_baselines3/common/atari_wrappers.py:229-250 | When AtariWrapper accepts an environment, the stack starts with NoopReset and MaxAndSkip. It holds FireReset exactly when FIRE is an action meaning, and its layers are in rank order. |
| AtariWrapper.DefaultLayersForFireGame | stable_baselines3/common/atari_wrappers.py:229-248 | With the default arguments (30 no-ops at most, frame skip 4, screen size 84, no region, no override, life loss terminal, clipping on), a game with NOOP at 0, FIRE at 1 and at least three actions gets exactly NoopReset, MaxAndSkip, EpisodicLife, FireReset, WarpFrame 84x84 and ClipReward, in that order. |

## Left out

- WarpFrame (grey-scaling, cropping and resizing with OpenCV) is not modelled. It appears only as a layer with its width, height and region. The OpenCV import and the OpenCL switch are left out as well.
- Observation spaces, `observation_space` shapes and dtypes are left out. A frame is a flat `seq<int>` of the environment's `frameSize` pixels.
- Randomness: `np_random.randint(1, noop_max + 1)` is the `draw` parameter of `NoopResetEnv.Reset`. Its requires says that the draw lies in [1, noop_max] whenever that range is used.
- Rewards are reals, not floating-point numbers, so rounding in `total_reward` is not modelled.
- `**kwargs` passed through to `reset` are left out.
- The `info` dictionary is a map the wrappers only pass through.
- The stacked wrappers are not composed by behaviour. Each wrapper class here wraps the scripted environment directly, and `AtariWrapper` is modelled only as the list of layers it builds. The pass-through `step` and `reset` that `NoopResetEnv`, `FireResetEnv` and `ClipRewardEnv` inherit from `gym.Wrapper` are left out, and so is the `gym.RewardWrapper` plumbing that applies `ClipRewardEnv.reward`.
- NoopReset.NoopResetEnv.constructor, FireReset.FireResetEnv.constructor: their `assert`s are preconditions. The errors they raise on a mismatch are modelled in `AtariWrapper.Layers`.
