/** The player's durable progression record (UserManager): name, cumulative
    score, the global hoe (tool) level and the best endless-mode score, the
    player level derived from the score, and the record-level part of loading
    a stored record, including the migration of the legacy `hoeLevels`
    map. */
module Progression {
  import opened Wrappers
  import opened Text

  /** Points per player level. */
  const LevelStep: int := 5000
  /** The hoe level never passes this through an upgrade. */
  const MaxHoe: int := 999

  datatype Player = Player(name: string, totalScore: int, hoeLevel: int, endlessBest: int)

  /** The record a first launch starts from. */
  function Defaults(): Player {
    Player("", 0, 1, 0)
  }

  /** The ranges the game's own operations keep the record in. */
  predicate Valid(p: Player) {
    && p.totalScore >= 0
    && 1 <= p.hoeLevel <= MaxHoe
    && p.endlessBest >= 0
  }

  /** The total score at which level `k + 1` begins. */
  function Threshold(k: int): int {
    k * LevelStep
  }

  /** The player level, `floor(totalScore / 5000) + 1`: the level is the one
      whose score band holds the total, and it is at least 1 whenever the
      total is not negative. */
  function Level(p: Player): (lv: int)
    ensures Threshold(lv - 1) <= p.totalScore < Threshold(lv)
    ensures p.totalScore >= 0 ==> lv >= 1
  {
    p.totalScore / LevelStep + 1
  }

  /** Two totals fall in different level bands exactly when a level
      threshold lies in between them. */
  lemma LevelCrossing(a: int, b: int)
    ensures b / LevelStep > a / LevelStep <==> exists k :: a < Threshold(k) <= b
  {
    if b / LevelStep > a / LevelStep {
      var k := b / LevelStep;
      assert a < Threshold(k) <= b;
    }
    if k :| a < Threshold(k) <= b {
      assert a / LevelStep < k;
      assert k <= b / LevelStep;
    }
  }

  /** setName: stores the trimmed name and touches nothing else. */
  function SetName(p: Player, name: string): (r: Player)
    ensures r.name == Trim(name) && IsTrimmed(r.name)
    ensures r.totalScore == p.totalScore && r.hoeLevel == p.hoeLevel
    ensures r.endlessBest == p.endlessBest
    ensures Valid(p) ==> Valid(r)
  {
    p.(name := Trim(name))
  }

  /** resetForNewName: a whole new record under the trimmed name, so no
      progression carries over from the previous identity. */
  function ResetForNewName(p: Player, name: string): (r: Player)
    ensures r.name == Trim(name) && IsTrimmed(r.name)
    ensures r.totalScore == 0 && r.hoeLevel == 1 && r.endlessBest == 0
    ensures Valid(r) && Level(r) == 1
  {
    Defaults().(name := Trim(name))
  }

  /** Whatever two records a switch starts from, it ends in the same one. */
  lemma ResetForgetsPrior(p: Player, q: Player, name: string)
    ensures ResetForNewName(p, name) == ResetForNewName(q, name)
  {
  }

  /** addScore: raises the total by exactly `points` and reports a level-up
      exactly when a level threshold was crossed on the way. */
  function AddScore(p: Player, points: int): (r: (Player, bool))
    ensures r.0.totalScore == p.totalScore + points
    ensures r.0.name == p.name && r.0.hoeLevel == p.hoeLevel
    ensures r.0.endlessBest == p.endlessBest
    ensures r.1 <==> exists k :: p.totalScore < Threshold(k) <= p.totalScore + points
    ensures r.1 ==> points > 0
    ensures points >= 0 ==> Level(r.0) >= Level(p)
  {
    var q := p.(totalScore := p.totalScore + points);
    LevelCrossing(p.totalScore, q.totalScore);
    (q, Level(q) > Level(p))
  }

  /** upgradeHoe: below the cap it adds `amount`, clamped to the cap, and
      reports success; at or above the cap it changes nothing and reports
      failure. */
  function UpgradeHoe(p: Player, amount: int): (r: (Player, bool))
    ensures r.1 <==> p.hoeLevel < MaxHoe
    ensures r.1 ==> r.0.hoeLevel == (if p.hoeLevel + amount < MaxHoe then p.hoeLevel + amount else MaxHoe)
    ensures !r.1 ==> r.0 == p
    ensures r.0.name == p.name && r.0.totalScore == p.totalScore
    ensures r.0.endlessBest == p.endlessBest
    ensures r.0.hoeLevel <= MaxHoe || r.0.hoeLevel == p.hoeLevel
  {
    if p.hoeLevel < MaxHoe then
      var lv := if p.hoeLevel + amount < MaxHoe then p.hoeLevel + amount else MaxHoe;
      (p.(hoeLevel := lv), true)
    else
      (p, false)
  }

  /** With a positive amount an upgrade never lowers the level, keeps a valid
      record valid, and reports success exactly when the level moved. */
  lemma UpgradeHoeReportsChange(p: Player, amount: int)
    requires Valid(p) && amount >= 1
    ensures UpgradeHoe(p, amount).0.hoeLevel >= p.hoeLevel
    ensures Valid(UpgradeHoe(p, amount).0)
    ensures UpgradeHoe(p, amount).1 <==> UpgradeHoe(p, amount).0.hoeLevel != p.hoeLevel
  {
  }

  /** updateEndlessBest: the best becomes the larger of the old best and the
      new score, and the report says whether the record changed. */
  function UpdateEndlessBest(p: Player, score: int): (r: (Player, bool))
    ensures r.0.endlessBest >= p.endlessBest && r.0.endlessBest >= score
    ensures r.0.endlessBest == p.endlessBest || r.0.endlessBest == score
    ensures r.1 <==> r.0 != p
    ensures r.1 <==> score > p.endlessBest
    ensures r.0.name == p.name && r.0.totalScore == p.totalScore
    ensures r.0.hoeLevel == p.hoeLevel
  {
    if score > p.endlessBest then (p.(endlessBest := score), true) else (p, false)
  }

  // ---------------------------------------------------------------------
  // Loading a stored record

  /** A stored record as parsed: each field may be absent. `hoeLevels` holds
      the values of the legacy map when the record has one. */
  datatype Stored = Stored(
    name: Option<string>,
    totalScore: Option<int>,
    hoeLevel: Option<int>,
    endlessBest: Option<int>,
    hoeLevels: Option<seq<int>>)

  /** `Math.max(1, ...values)`: at least 1, at least every value, and one of
      them (or 1). */
  function MaxLevel(values: seq<int>): (m: int)
    ensures m >= 1
    ensures forall i :: 0 <= i < |values| ==> values[i] <= m
    ensures m == 1 || exists i :: 0 <= i < |values| && values[i] == m
  {
    if |values| == 0 then 1
    else
      var rest := MaxLevel(values[1..]);
      assert forall i :: 1 <= i < |values| ==> values[i] == values[1..][i - 1];
      if values[0] > rest then values[0] else rest
  }

  /** The record as it is written out: every field present, no legacy map. */
  function Save(p: Player): (s: Stored)
    ensures s.hoeLevels.None?
  {
    Stored(Some(p.name), Some(p.totalScore), Some(p.hoeLevel), Some(p.endlessBest), None)
  }

  /** load: with nothing readable stored (absent or corrupt) the record stays
      as it is; otherwise a legacy map first sets the hoe level to
      `MaxLevel` of its values, and then every field the stored record
      carries overrides the current one, a stored `hoeLevel` included. */
  function Load(current: Player, stored: Option<Stored>): (r: Player)
    ensures stored.None? ==> r == current
    ensures stored.Some? ==>
      && r.name == stored.value.name.GetOr(current.name)
      && r.totalScore == stored.value.totalScore.GetOr(current.totalScore)
      && r.endlessBest == stored.value.endlessBest.GetOr(current.endlessBest)
  {
    match stored
    case None => current
    case Some(s) =>
      var migrated :=
        if s.hoeLevels.Some? then current.(hoeLevel := MaxLevel(s.hoeLevels.value)) else current;
      Player(
        s.name.GetOr(migrated.name),
        s.totalScore.GetOr(migrated.totalScore),
        s.hoeLevel.GetOr(migrated.hoeLevel),
        s.endlessBest.GetOr(migrated.endlessBest))
  }

  /** Loading what was saved gives back the saved record, whatever the
      in-memory record was before. */
  lemma LoadSaveRoundTrip(current: Player, p: Player)
    ensures Load(current, Some(Save(p))) == p
  {
  }

  /** A legacy record without a `hoeLevel` field migrates to the largest of
      the levels in its `hoeLevels` map (at least 1). */
  lemma LegacyMigration(current: Player, s: Stored)
    requires s.hoeLevels.Some? && s.hoeLevel.None?
    ensures Load(current, Some(s)).hoeLevel >= 1
    ensures forall i :: 0 <= i < |s.hoeLevels.value| ==>
              s.hoeLevels.value[i] <= Load(current, Some(s)).hoeLevel
    ensures Load(current, Some(s)).hoeLevel == 1
            || Load(current, Some(s)).hoeLevel in s.hoeLevels.value
  {
  }

  /** A stored `hoeLevel` wins over the level migrated from the legacy map,
      because the stored fields are spread over the migrated record. */
  lemma StoredHoeOverridesMigration(current: Player, s: Stored)
    requires s.hoeLevel.Some?
    ensures Load(current, Some(s)).hoeLevel == s.hoeLevel.value
  {
  }

  /** Without a legacy map or a stored `hoeLevel`, loading keeps the current
      hoe level. */
  lemma HoeKeptWithoutStoredLevel(current: Player, s: Stored)
    requires s.hoeLevel.None? && s.hoeLevels.None?
    ensures Load(current, Some(s)).hoeLevel == current.hoeLevel
  {
  }

  /** A legacy record whose `hoeLevels` map holds 3 and 7 and a total of 100 loads
      as hoe level 7 with that total and defaults elsewhere. */
  lemma LegacyExample()
    ensures Load(Defaults(), Some(Stored(None, Some(100), None, None, Some([3, 7]))))
            == Player("", 100, 7, 0)
  {
    assert MaxLevel([7]) == 7;
  }
}
