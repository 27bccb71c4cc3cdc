/**
 * ClipRewardEnv (stable_baselines3/common/atari_wrappers.py:154-170): bin
 * every reward to -1, 0 or +1 by its sign.
 */
module ClipReward {

  /** The sign of `reward` (numpy's `sign`), as a reward. */
  function Reward(reward: real): (clipped: real)
    ensures clipped == -1.0 || clipped == 0.0 || clipped == 1.0
    ensures clipped > 0.0 <==> reward > 0.0
    ensures clipped < 0.0 <==> reward < 0.0
  {
    if reward > 0.0 then 1.0 else if reward < 0.0 then -1.0 else 0.0
  }
}
