/**
 * The bot's difficulty tiers (tetris_bot.py, `__init__`): the pacing and
 * error settings per tier and the heuristic weights, the medium tier being
 * the baseline that easy and hard override.
 */
module BotConfig {
  datatype Difficulty = Easy | Medium | Hard

  /** Delays are in seconds; `errorRate` is the probability of a random move. */
  datatype Settings = Settings(moveDelay: real, thinkDelay: real, errorRate: real, lookAhead: bool)

  datatype Weights = Weights(
    height: real, holes: real, bumpiness: real, completeLines: real,
    edgeTouch: real, wellDepth: real, overhang: real)

  function SettingsFor(d: Difficulty): (s: Settings)
    ensures 0.0 <= s.errorRate <= 1.0 && 0.0 < s.thinkDelay && 0.0 < s.moveDelay
    ensures s.lookAhead <==> d != Easy
  {
    match d
    case Easy => Settings(0.5, 0.3, 0.3, false)
    case Medium => Settings(0.3, 0.2, 0.15, true)
    case Hard => Settings(0.1, 0.1, 0.05, true)
  }

  /** The baseline weights; the tiers override some of them. */
  const BaseWeights: Weights := Weights(-4.5, -7.5, -2.0, 5.0, 0.5, -4.0, -3.0)

  function WeightsFor(d: Difficulty): (w: Weights)
    ensures w.holes < 0.0 && w.height < 0.0 && w.bumpiness < 0.0 && w.wellDepth < 0.0 && w.overhang < 0.0
    ensures w.completeLines > 0.0 && w.edgeTouch > 0.0
    ensures d == Easy ==> w.holes > BaseWeights.holes && w.completeLines > BaseWeights.completeLines
    ensures d == Hard ==> w.holes < BaseWeights.holes && w.height < BaseWeights.height
  {
    match d
    case Easy => BaseWeights.(height := -3.0, holes := -4.0, completeLines := 10.0)
    case Medium => BaseWeights
    case Hard => BaseWeights.(height := -6.0, holes := -10.0, bumpiness := -3.0, wellDepth := -5.0)
  }
}
