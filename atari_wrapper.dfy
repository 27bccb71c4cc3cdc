/**
 * AtariWrapper (stable_baselines3/common/atari_wrappers.py:206-250): the
 * fixed, partly conditional order in which the wrappers are stacked.
 */
module AtariWrapper {
  import opened Env

  /** The crop region passed on to WarpFrame, as top-left and bottom-right corners. */
  datatype Region = Region(top: int, left: int, bottom: int, right: int)

  /** One layer of the stack, with the settings it is built with. */
  datatype Layer =
    | NoopResetLayer(noopMax: int, overrideNumNoops: Option<int>)
    | MaxAndSkipLayer(skip: int)
    | EpisodicLifeLayer
    | FireResetLayer
    | WarpFrameLayer(width: int, height: int, region: Option<Region>)
    | ClipRewardLayer

  /** The constructor arguments of AtariWrapper. */
  datatype Config = Config(
    noopMax: int,
    frameSkip: int,
    region: Option<Region>,
    screenSize: int,
    overrideNumNoops: Option<int>,
    terminalOnLifeLoss: bool,
    clipReward: bool)

  /** The default arguments. */
  const DefaultConfig := Config(30, 4, None, 84, None, true, true)

  /** The place of each kind of layer in the stack, counted from the raw environment outwards. */
  function Rank(layer: Layer): nat
  {
    match layer
    case NoopResetLayer(_, _) => 0
    case MaxAndSkipLayer(_) => 1
    case EpisodicLifeLayer => 2
    case FireResetLayer => 3
    case WarpFrameLayer(_, _, _) => 4
    case ClipRewardLayer => 5
  }

  /** Layer kinds strictly increase in rank along `ls`. */
  ghost predicate Ascending(ls: seq<Layer>)
  {
    forall i, j :: 0 <= i < j < |ls| ==> Rank(ls[i]) < Rank(ls[j])
  }

  /** The stack with `layer` put on top, when `present` holds. */
  function PushIf(ls: seq<Layer>, present: bool, layer: Layer): seq<Layer>
  {
    if present then ls + [layer] else ls
  }

  /**
   * The layers AtariWrapper stacks, innermost first, once the constructors
   * have accepted the action meanings; `fire` says whether FIRE is among them.
   */
  function Stack(cfg: Config, fire: bool): seq<Layer>
  {
    var inner := [NoopResetLayer(cfg.noopMax, cfg.overrideNumNoops), MaxAndSkipLayer(cfg.frameSkip)];
    var withLife := PushIf(inner, cfg.terminalOnLifeLoss, EpisodicLifeLayer);
    var withFire := PushIf(withLife, fire, FireResetLayer);
    var warped := withFire + [WarpFrameLayer(cfg.screenSize, cfg.screenSize, cfg.region)];
    PushIf(warped, cfg.clipReward, ClipRewardLayer)
  }

  /**
   * The layers AtariWrapper stacks around an environment whose action
   * meanings are `meanings`; or the error that the NoopResetEnv or
   * FireResetEnv constructor raises.
   */
  function Layers(cfg: Config, meanings: seq<string>): (r: Result<seq<Layer>>)
    ensures |meanings| == 0 ==> r == Err(IndexError)
    ensures r.Ok? <==>
      |meanings| > 0 && meanings[0] == "NOOP" &&
      ("FIRE" in meanings ==> |meanings| >= 3 && meanings[1] == "FIRE")
    ensures r.Ok? ==> r.value == Stack(cfg, "FIRE" in meanings)
  {
    if |meanings| == 0 then Err(IndexError)
    else if meanings[0] != "NOOP" then Err(AssertionError)
    else if "FIRE" in meanings && (meanings[1] != "FIRE" || |meanings| < 3) then Err(AssertionError)
    else Ok(Stack(cfg, "FIRE" in meanings))
  }

  /** Putting a layer of higher rank than all others on top keeps the stack ascending. */
  lemma PushIfAscending(ls: seq<Layer>, present: bool, layer: Layer)
    requires Ascending(ls)
    requires forall i :: 0 <= i < |ls| ==> Rank(ls[i]) < Rank(layer)
    ensures Ascending(PushIf(ls, present, layer))
    ensures ls <= PushIf(ls, present, layer)
    ensures forall i :: 0 <= i < |PushIf(ls, present, layer)| ==> Rank(PushIf(ls, present, layer)[i]) <= Rank(layer)
  {
  }

  /** A layer is in the pushed stack exactly when it was already there or is the one pushed. */
  lemma PushIfMember(ls: seq<Layer>, present: bool, layer: Layer, l: Layer)
    ensures l in PushIf(ls, present, layer) <==> l in ls || (present && l == layer)
  {
  }

  /** Each kind of layer is in the stack exactly when its condition holds, innermost first. */
  lemma StackMembers(cfg: Config, fire: bool)
    ensures var ls := Stack(cfg, fire);
      |ls| >= 3 &&
      ls[0] == NoopResetLayer(cfg.noopMax, cfg.overrideNumNoops) &&
      ls[1] == MaxAndSkipLayer(cfg.frameSkip) &&
      WarpFrameLayer(cfg.screenSize, cfg.screenSize, cfg.region) in ls &&
      (EpisodicLifeLayer in ls <==> cfg.terminalOnLifeLoss) &&
      (FireResetLayer in ls <==> fire) &&
      (ClipRewardLayer in ls <==> cfg.clipReward)
  {
    var inner := [NoopResetLayer(cfg.noopMax, cfg.overrideNumNoops), MaxAndSkipLayer(cfg.frameSkip)];
    var warp := WarpFrameLayer(cfg.screenSize, cfg.screenSize, cfg.region);
    var withLife := PushIf(inner, cfg.terminalOnLifeLoss, EpisodicLifeLayer);
    var withFire := PushIf(withLife, fire, FireResetLayer);
    var warped := PushIf(withFire, true, warp);
    assert warped == withFire + [warp];
    var ls := PushIf(warped, cfg.clipReward, ClipRewardLayer);
    assert inner <= withLife <= withFire <= warped <= ls;
    PushIfMember(inner, cfg.terminalOnLifeLoss, EpisodicLifeLayer, EpisodicLifeLayer);
    PushIfMember(withLife, fire, FireResetLayer, EpisodicLifeLayer);
    PushIfMember(warped, cfg.clipReward, ClipRewardLayer, EpisodicLifeLayer);
    PushIfMember(inner, cfg.terminalOnLifeLoss, EpisodicLifeLayer, FireResetLayer);
    PushIfMember(withLife, fire, FireResetLayer, FireResetLayer);
    PushIfMember(warped, cfg.clipReward, ClipRewardLayer, FireResetLayer);
    PushIfMember(inner, cfg.terminalOnLifeLoss, EpisodicLifeLayer, ClipRewardLayer);
    PushIfMember(withLife, fire, FireResetLayer, ClipRewardLayer);
    PushIfMember(warped, cfg.clipReward, ClipRewardLayer, ClipRewardLayer);
    PushIfMember(warped, cfg.clipReward, ClipRewardLayer, warp);
  }

  /** No kind of layer occurs twice, and the kinds come in rank order. */
  lemma StackAscending(cfg: Config, fire: bool)
    ensures Ascending(Stack(cfg, fire))
  {
    var inner := [NoopResetLayer(cfg.noopMax, cfg.overrideNumNoops), MaxAndSkipLayer(cfg.frameSkip)];
    var warp := WarpFrameLayer(cfg.screenSize, cfg.screenSize, cfg.region);
    PushIfAscending(inner, cfg.terminalOnLifeLoss, EpisodicLifeLayer);
    var withLife := PushIf(inner, cfg.terminalOnLifeLoss, EpisodicLifeLayer);
    PushIfAscending(withLife, fire, FireResetLayer);
    var withFire := PushIf(withLife, fire, FireResetLayer);
    PushIfAscending(withFire, true, warp);
    var warped := PushIf(withFire, true, warp);
    assert warped == withFire + [warp];
    PushIfAscending(warped, cfg.clipReward, ClipRewardLayer);
  }

  /** From the inside out, the stack AtariWrapper builds on an accepted
   * environment starts with NoopReset and MaxAndSkip, holds FireReset exactly
   * when FIRE is an action meaning, and keeps every kind of layer in rank
   * order, each at most once. */
  lemma LayersOrder(cfg: Config, meanings: seq<string>)
    requires Layers(cfg, meanings).Ok?
    ensures var ls := Layers(cfg, meanings).value;
      ls[0] == NoopResetLayer(cfg.noopMax, cfg.overrideNumNoops) &&
      ls[1] == MaxAndSkipLayer(cfg.frameSkip) &&
      (FireResetLayer in ls <==> "FIRE" in meanings) &&
      Ascending(ls)
  {
    StackMembers(cfg, "FIRE" in meanings);
    StackAscending(cfg, "FIRE" in meanings);
  }

  /**
   * With the default arguments, a game whose action 1 is FIRE gets all six
   * layers: NoopReset with up to 30 no-ops, a frame skip of 4, EpisodicLife,
   * FireReset, an 84x84 WarpFrame over the whole screen, and ClipReward.
   */
  lemma DefaultLayersForFireGame(meanings: seq<string>)
    requires |meanings| >= 3 && meanings[0] == "NOOP" && meanings[1] == "FIRE"
    ensures Layers(DefaultConfig, meanings) ==
      Ok([NoopResetLayer(30, None), MaxAndSkipLayer(4), EpisodicLifeLayer,
          FireResetLayer, WarpFrameLayer(84, 84, None), ClipRewardLayer])
  {
    assert "FIRE" in meanings by { assert meanings[1] == "FIRE"; }
    var inner := [NoopResetLayer(30, None), MaxAndSkipLayer(4)];
    assert PushIf(inner, true, EpisodicLifeLayer) == inner + [EpisodicLifeLayer];
    assert Stack(DefaultConfig, true) ==
      inner + [EpisodicLifeLayer] + [FireResetLayer] + [WarpFrameLayer(84, 84, None)] + [ClipRewardLayer];
    assert inner + [EpisodicLifeLayer] + [FireResetLayer] + [WarpFrameLayer(84, 84, None)] + [ClipRewardLayer] ==
      [NoopResetLayer(30, None), MaxAndSkipLayer(4), EpisodicLifeLayer,
       FireResetLayer, WarpFrameLayer(84, 84, None), ClipRewardLayer];
  }
}
