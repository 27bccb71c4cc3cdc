/**
 * The environment that every wrapper in stable_baselines3/common/atari_wrappers.py
 * wraps, modelled as a scripted, fully observable environment: it records every
 * call it receives and answers each call with a response that is a function of
 * the whole call history so far.
 */
module Env {

  /** A raw frame, its pixels flattened into one row. */
  type Frame = seq<int>

  /** The `info` dictionary a step returns; the wrappers only pass it through. */
  type Info = map<string, int>

  /** A call received by the environment. */
  datatype Call = ResetCall | StepCall(action: int)

  /** What `step` returns: observation, reward, done flag and info. */
  datatype Transition = Transition(obs: Frame, reward: real, done: bool, info: Info)

  /**
   * The environment's answer to a call, together with the life counter
   * (`ale.lives()`) it reports afterwards. A reset uses only `obs`.
   */
  datatype Outcome = Outcome(obs: Frame, reward: real, done: bool, info: Info, lives: int)
  {
    /** The transition a step call returns. */
    function Returned(): Transition
    {
      Transition(obs, reward, done, info)
    }
  }

  /** Python exceptions the modelled code can raise. */
  datatype Error = AssertionError | IndexError | ValueError | UnboundLocalError

  datatype Option<T> = None | Some(value: T)

  datatype Result<T> = Ok(value: T) | Err(error: Error)

  /** `n` copies of the call `c`. */
  function Repeat(c: Call, n: nat): seq<Call>
  {
    seq(n, _ => c)
  }

  /** The actions of the step calls in `calls`, in order. */
  function Actions(calls: seq<Call>): (actions: seq<int>)
    ensures |actions| <= |calls|
  {
    if calls == [] then []
    else (if calls[0].StepCall? then [calls[0].action] else []) + Actions(calls[1..])
  }

  /** The actions of a concatenation are the concatenated actions. */
  lemma {:induction false} ActionsConcat(a: seq<Call>, b: seq<Call>)
    ensures Actions(a + b) == Actions(a) + Actions(b)
  {
    if a == [] {
      assert a + b == b;
    } else {
      var head := if a[0].StepCall? then [a[0].action] else [];
      assert (a + b)[0] == a[0];
      assert (a + b)[1..] == a[1..] + b;
      ActionsConcat(a[1..], b);
      calc {
        Actions(a + b);
        head + Actions(a[1..] + b);
        head + (Actions(a[1..]) + Actions(b));
        (head + Actions(a[1..])) + Actions(b);
      }
    }
  }

  /**
   * The calls of one step with `action` after the history `h`, followed by a
   * reset when that step reports done.
   */
  function StepThenResetIfDone(respond: seq<Call> -> Outcome, h: seq<Call>, action: int): (t: seq<Call>)
    ensures |t| == 1 || (|t| == 2 && t[1] == ResetCall)
    ensures t[0] == StepCall(action)
    ensures |t| == 2 <==> respond(h + [StepCall(action)]).done
  {
    if respond(h + [StepCall(action)]).done then [StepCall(action), ResetCall] else [StepCall(action)]
  }

  /** The only step among those calls is the step with `action`. */
  lemma StepThenResetIfDoneActions(respond: seq<Call> -> Outcome, h: seq<Call>, action: int)
    ensures Actions(StepThenResetIfDone(respond, h, action)) == [action]
  {
    var t := StepThenResetIfDone(respond, h, action);
    if |t| == 2 {
      assert t[1..][1..] == [];
    }
  }

  /**
   * In the calls `t` made after the history `h`, a step is immediately
   * followed by a reset exactly when that step reports done, and every reset
   * immediately follows a step (so no other reset is made).
   */
  ghost predicate ResetExactlyAfterDone(respond: seq<Call> -> Outcome, h: seq<Call>, t: seq<Call>)
  {
    (forall k :: 0 <= k < |t| && t[k].StepCall? ==>
       (respond(h + t[..k + 1]).done <==> k + 1 < |t| && t[k + 1] == ResetCall)) &&
    (forall k :: 0 <= k < |t| && t[k] == ResetCall ==> 0 < k && t[k - 1].StepCall?)
  }

  /** Appending a step, and a reset if it reports done, keeps resets exactly after done steps. */
  lemma ResetExactlyAfterDoneAppend(respond: seq<Call> -> Outcome, h: seq<Call>, prev: seq<Call>, action: int)
    requires ResetExactlyAfterDone(respond, h, prev)
    ensures ResetExactlyAfterDone(respond, h, prev + StepThenResetIfDone(respond, h + prev, action))
  {
    var it := StepThenResetIfDone(respond, h + prev, action);
    var t := prev + it;
    forall k | 0 <= k < |t| && t[k].StepCall?
      ensures respond(h + t[..k + 1]).done <==> k + 1 < |t| && t[k + 1] == ResetCall
    {
      if k < |prev| {
        assert t[..k + 1] == prev[..k + 1];
        assert prev[k].StepCall?;
        if k + 1 == |prev| {
          assert t[k + 1] == it[0];
        } else {
          assert t[k + 1] == prev[k + 1];
        }
      } else {
        assert k == |prev|;
        assert h + t[..k + 1] == h + prev + [StepCall(action)];
      }
    }
    forall k | 0 <= k < |t| && t[k] == ResetCall
      ensures 0 < k && t[k - 1].StepCall?
    {
      if k >= |prev| {
        assert k == |prev| + 1;
      } else {
        assert t[k] == prev[k];
      }
    }
  }

  /**
   * The wrapped environment. `respond(h)` is the answer to the last call of
   * the history `h`; `respond([]).lives` is the life counter before any call.
   */
  class ScriptedEnv {
    const respond: seq<Call> -> Outcome
    /** Number of pixels in every frame (the declared observation shape). */
    const frameSize: nat
    /** What `unwrapped.get_action_meanings()` returns. */
    const actionMeanings: seq<string>
    /** Every call received so far, oldest first. */
    var log: seq<Call>

    /** Every frame the environment produces has the declared shape. */
    ghost predicate Valid()
    {
      forall h :: |respond(h).obs| == frameSize
    }

    constructor (respond: seq<Call> -> Outcome, frameSize: nat, actionMeanings: seq<string>)
      requires forall h :: |respond(h).obs| == frameSize
      ensures Valid() && log == []
      ensures this.respond == respond && this.frameSize == frameSize
      ensures this.actionMeanings == actionMeanings
    {
      this.respond := respond;
      this.frameSize := frameSize;
      this.actionMeanings := actionMeanings;
      log := [];
    }

    /** `ale.lives()`: the life counter reported after the latest call. */
    function Lives(): int
      reads this
    {
      respond(log).lives
    }

    method Reset() returns (obs: Frame)
      modifies this
      ensures log == old(log) + [ResetCall]
      ensures obs == respond(log).obs
    {
      log := log + [ResetCall];
      obs := respond(log).obs;
    }

    method Step(action: int) returns (t: Transition)
      modifies this
      ensures log == old(log) + [StepCall(action)]
      ensures t == respond(log).Returned()
    {
      log := log + [StepCall(action)];
      t := respond(log).Returned();
    }
  }
}
