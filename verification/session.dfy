/** One play session (the `Game` fields and `startGame`, `loop`,
    `handleTap`, `harvestCrop`): the phase, the clock, the tap gauge, combo,
    score and harvest count. The random tractor draw is the boolean
    `tractor`; ending a session, which also touches the player record, is in
    the Game module. */
module Session {
  import opened Modes
  import Progression

  /** Milliseconds per clock tick. */
  const TickMs: int := 10
  /** Flat points per tap. */
  const TapPoints: int := 10
  /** Crops a tractor harvest brings in (1 base + 10 bonus). */
  const TractorGain: int := 11
  /** The tractor's factor on the harvest bonus. */
  const TractorFactor: int := 5

  datatype Phase = Login | Menu | Playing | Result

  /** `timeLeft` (ms) counts down in timed modes, `elapsed` (ms) counts up in
      the endless mode. */
  datatype Session = Session(
    mode: Mode,
    phase: Phase,
    timeLeft: int,
    elapsed: nat,
    score: nat,
    combo: nat,
    harvested: nat,
    currentTaps: nat,
    tapsNeeded: int)

  /** The values the game is constructed with, before any login. */
  function Initial(): Session {
    Session(Easy, Login, 0, 0, 0, 0, 0, 0, 10)
  }

  /** While playing, a harvest costs at least two taps and the gauge is
      never full: a full gauge is harvested in the same tap. */
  predicate GaugeInv(s: Session) {
    s.phase == Playing ==> 2 <= s.tapsNeeded && s.currentTaps < s.tapsNeeded
  }

  /** A timed session still playing has time left. */
  predicate TimerInv(s: Session) {
    s.phase == Playing && !Config(s.mode).endless ==> s.timeLeft > 0
  }

  predicate Inv(s: Session) {
    GaugeInv(s) && TimerInv(s)
  }

  /** Taps per harvest: each hoe level above 1 takes two taps off the mode's
      base cost, but never below two. */
  function TapsNeeded(baseTaps: int, hoeLevel: int): (t: int)
    ensures t >= 2
    ensures t >= baseTaps - (hoeLevel - 1) * 2
    ensures t == 2 || t == baseTaps - (hoeLevel - 1) * 2
  {
    var cost := baseTaps - (hoeLevel - 1) * 2;
    if cost < 2 then 2 else cost
  }

  /** A better hoe never makes a harvest cost more taps. */
  lemma TapsNeededAntitone(baseTaps: int, lo: int, hi: int)
    requires lo <= hi
    ensures TapsNeeded(baseTaps, hi) <= TapsNeeded(baseTaps, lo)
  {
  }

  /** One more hoe level takes two taps off, down to the floor of two. */
  lemma TapsNeededStep(baseTaps: int, hoeLevel: int)
    ensures TapsNeeded(baseTaps, hoeLevel + 1)
            == (if TapsNeeded(baseTaps, hoeLevel) - 2 < 2 then 2 else TapsNeeded(baseTaps, hoeLevel) - 2)
  {
  }

  /** startGame: without a player name nothing starts; otherwise a fresh
      session of mode `m` whose tap cost comes from the player's hoe level,
      with every counter at zero and the timer at the mode's duration. */
  function Start(s: Session, p: Progression.Player, m: Mode): (r: Session)
    ensures p.name == [] ==> r == s
    ensures p.name != [] ==>
      && r.phase == Playing && r.mode == m
      && r.score == 0 && r.combo == 0 && r.harvested == 0
      && r.currentTaps == 0 && r.elapsed == 0
      && r.timeLeft == (if Config(m).endless then 0 else Config(m).time * 1000)
      && r.tapsNeeded == TapsNeeded(Config(m).baseTaps, p.hoeLevel)
    ensures p.name != [] ==> Inv(r)
  {
    if p.name == [] then s
    else
      var cfg := Config(m);
      Session(
        m, Playing,
        if cfg.endless then 0 else cfg.time * 1000,
        0, 0, 0, 0, 0,
        TapsNeeded(cfg.baseTaps, p.hoeLevel))
  }

  /** A restart leaves nothing of the session it replaces. */
  lemma StartForgetsPrior(s1: Session, s2: Session, p: Progression.Player, m: Mode)
    requires p.name != []
    ensures Start(s1, p, m) == Start(s2, p, m)
  {
  }

  /** Crops one harvest brings in: 11 on a tractor draw in the endless mode,
      1 otherwise. */
  function Gain(m: Mode, tractor: bool): (g: int)
    ensures g == 1 || g == TractorGain
    ensures g == TractorGain <==> Config(m).endless && tractor
  {
    if Config(m).endless && tractor then TractorGain else 1
  }

  /** The harvest bonus, `floor(100 * scoreMult * (1 + combo * 0.1))`, five
      times over on a tractor harvest, computed exactly in integers. */
  function HarvestBonus(m: Mode, combo: nat, tractor: bool): (b: nat)
    ensures b == (if Config(m).endless && tractor then TractorFactor else 1)
                 * (100.0 * Config(m).scoreMult * (1.0 + (combo as real) * 0.1)).Floor
    ensures b >= 100
  {
    BonusExact(m, combo);
    var base := Mult10(m) * (10 + combo);
    if Config(m).endless && tractor then TractorFactor * base else base
  }

  /** The integer form of the bonus is the real formula itself (a whole
      number), so taking the floor loses nothing. */
  lemma BonusExact(m: Mode, combo: nat)
    ensures (Mult10(m) * (10 + combo)) as real
            == 100.0 * Config(m).scoreMult * (1.0 + (combo as real) * 0.1)
  {
    var c := combo as real;
    match m
    case Easy => assert 100.0 * 1.0 * (1.0 + c * 0.1) == 10.0 * (10.0 + c);
    case Normal => assert 100.0 * 2.0 * (1.0 + c * 0.1) == 20.0 * (10.0 + c);
    case Hard => assert 100.0 * 3.0 * (1.0 + c * 0.1) == 30.0 * (10.0 + c);
    case Endless => assert 100.0 * 1.5 * (1.0 + c * 0.1) == 15.0 * (10.0 + c);
  }

  /** harvestCrop: the gauge empties, the combo stays, the harvest count
      grows by the gain and the score by the bonus; nothing else changes. */
  function Harvest(s: Session, tractor: bool): (r: Session)
    ensures r.currentTaps == 0 && r.combo == s.combo
    ensures r.harvested == s.harvested + Gain(s.mode, tractor)
    ensures r.score == s.score + HarvestBonus(s.mode, s.combo, tractor)
    ensures r.(currentTaps := s.currentTaps, harvested := s.harvested, score := s.score) == s
  {
    s.(harvested := s.harvested + Gain(s.mode, tractor),
       currentTaps := 0,
       score := s.score + HarvestBonus(s.mode, s.combo, tractor))
  }

  /** handleTap: outside play nothing happens. In play the combo goes up by
      one, the score by ten and the gauge by one tap; a tap that fills the
      gauge harvests at once. */
  function Tap(s: Session, tractor: bool): (r: Session)
    ensures s.phase != Playing ==> r == s
    ensures s.phase == Playing ==>
      && r.phase == Playing && r.mode == s.mode && r.tapsNeeded == s.tapsNeeded
      && r.timeLeft == s.timeLeft && r.elapsed == s.elapsed
      && r.combo == s.combo + 1
      && r.score >= s.score + TapPoints && r.harvested >= s.harvested
    ensures s.phase == Playing && s.currentTaps + 1 < s.tapsNeeded ==>
      && r.currentTaps == s.currentTaps + 1
      && r.harvested == s.harvested && r.score == s.score + TapPoints
    ensures s.phase == Playing && s.currentTaps + 1 >= s.tapsNeeded ==>
      && r.currentTaps == 0
      && r.harvested == s.harvested + Gain(s.mode, tractor)
      && r.score == s.score + TapPoints + HarvestBonus(s.mode, s.combo + 1, tractor)
    ensures Inv(s) ==> Inv(r)
  {
    if s.phase != Playing then s
    else
      var t := s.(combo := s.combo + 1, score := s.score + TapPoints, currentTaps := s.currentTaps + 1);
      if t.currentTaps >= t.tapsNeeded then Harvest(t, tractor) else t
  }

  /** One clock step of `loop` before the end-of-session check: outside
      play nothing happens; the endless mode counts 10 ms up, a timed mode
      counts 10 ms down. Only the clock fields move. */
  function Clock(s: Session): (r: Session)
    ensures s.phase != Playing ==> r == s
    ensures s.phase == Playing && Config(s.mode).endless ==>
              r == s.(elapsed := s.elapsed + TickMs)
    ensures s.phase == Playing && !Config(s.mode).endless ==>
              r == s.(timeLeft := s.timeLeft - TickMs)
  {
    if s.phase != Playing then s
    else if Config(s.mode).endless then s.(elapsed := s.elapsed + TickMs)
    else s.(timeLeft := s.timeLeft - TickMs)
  }

  /** Whether a clock step has run a timed session out of time. */
  predicate TimedOut(s: Session) {
    s.phase == Playing && !Config(s.mode).endless && s.timeLeft <= 0
  }

  /** `isClear`: an endless session always clears; a timed one clears when
      the harvest count has reached the mode's target. */
  predicate IsClear(s: Session) {
    Config(s.mode).endless || s.harvested >= Config(s.mode).target
  }

  /** Taps `n` times with no tractor draw. */
  function Taps(s: Session, n: nat): Session
    decreases n
  {
    if n == 0 then s else Taps(Tap(s, false), n - 1)
  }

  /** While the gauge is not yet full, `n` taps only move combo, score and
      gauge, each by its per-tap amount. */
  lemma {:induction false} TapsBelowHarvest(s: Session, n: nat)
    requires s.phase == Playing && s.currentTaps + n < s.tapsNeeded
    ensures Taps(s, n) == s.(combo := s.combo + n, score := s.score + TapPoints * n,
                             currentTaps := s.currentTaps + n)
    decreases n
  {
    if n > 0 {
      TapsBelowHarvest(Tap(s, false), n - 1);
    }
  }

  /** From an empty gauge, exactly `tapsNeeded` taps make one plain harvest
      and leave the gauge empty again. */
  lemma TapsToHarvest(s: Session)
    requires s.phase == Playing && s.currentTaps == 0 && s.tapsNeeded >= 2
    ensures var r := Taps(s, s.tapsNeeded as nat);
      && r.phase == Playing && r.currentTaps == 0
      && r.harvested == s.harvested + 1
      && r.combo == s.combo + s.tapsNeeded
      && r.score == s.score + TapPoints * s.tapsNeeded
                    + HarvestBonus(s.mode, s.combo + s.tapsNeeded as nat, false)
  {
    var n := s.tapsNeeded as nat;
    TapsBelowHarvest(s, n - 1);
    TapsSplit(s, n - 1, 1);
  }

  lemma {:induction false} TapsSplit(s: Session, a: nat, b: nat)
    ensures Taps(s, a + b) == Taps(Taps(s, a), b)
    decreases a
  {
    if a > 0 {
      TapsSplit(Tap(s, false), a - 1, b);
    }
  }
}
