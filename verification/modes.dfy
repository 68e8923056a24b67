/** The mode table (`Game.config`): per mode its duration, harvest target,
    base tap cost per harvest, score multiplier and endless flag, plus the
    hoe upgrade a cleared session of that mode earns. */
module Modes {

  datatype Mode = Easy | Normal | Hard | Endless

  /** `time` is in seconds. For the endless mode `time` is unused and the
      harvest target is unbounded; `endless` stands for that, and its
      `target` field is never consulted. */
  datatype ModeConfig = ModeConfig(time: nat, target: nat, baseTaps: nat, scoreMult: real, endless: bool)

  function Config(m: Mode): (c: ModeConfig)
    ensures c.endless <==> m == Endless
    ensures !c.endless ==> c.time > 0 && c.target > 0
    ensures c.baseTaps >= 10 && c.scoreMult >= 1.0
  {
    match m
    case Easy => ModeConfig(20, 5, 10, 1.0, false)
    case Normal => ModeConfig(25, 10, 15, 2.0, false)
    case Hard => ModeConfig(30, 20, 20, 3.0, false)
    case Endless => ModeConfig(0, 0, 15, 1.5, true)
  }

  /** Ten times the score multiplier, which is a whole number for every
      mode; the harvest bonus is computed with it in integers. */
  function Mult10(m: Mode): (k: nat)
    ensures k as real == 10.0 * Config(m).scoreMult
    ensures k >= 10
  {
    match m
    case Easy => 10
    case Normal => 20
    case Hard => 30
    case Endless => 15
  }

  /** Hoe levels gained by clearing a session: 1 unless the mode is normal
      (2) or hard (3). The endless mode never asks for it. */
  function UpgradeAmount(m: Mode): (n: int)
    ensures 1 <= n <= 3
    ensures m == Normal ==> n == 2
    ensures m == Hard ==> n == 3
    ensures m != Normal && m != Hard ==> n == 1
  {
    if m == Hard then 3 else if m == Normal then 2 else 1
  }
}
