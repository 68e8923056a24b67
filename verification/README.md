# Tap-harvest game rules in Dafny

This is a Dafny model of the rules of a browser mini-game about tapping to harvest crops, with the page, audio and storage removed. It has three parts:

- **The player's progression record** (`UserManager`). It holds the name, the total score, the hoe (tool) level and the best endless score. The player level is derived from the total score. The hoe upgrade is capped at 999. The endless best only grows. Switching identity starts a fresh record. Loading a stored record migrates the legacy `hoeLevels` map.
- **The play session** (`Game`). A session has a phase: login, menu, playing or result. The mode table fixes each mode's duration, target, base tap cost and score multiplier. The tap gauge turns every `tapsNeeded` taps into a harvest. Combo and score grow with each tap. The endless mode has a random "tractor" harvest that gains 11 crops and gives a fivefold bonus. The clock ticks every 10 ms and times out timed modes. When a session ends, it is resolved as a clear or a fail. The score is added to the total, and a cleared timed session upgrades the hoe.
- **The endless leaderboard update**. It finds the player's entry by name. It raises that entry only to a higher best, or appends a new one. It then sorts by score, highest first, with a stable sort and keeps the top ten.

Everything is an immutable value moved by pure functions. The game state is `Game.App`: session, record and board. `Game.Step` applies one page event. The random draw of a harvest is the boolean `tractor` carried by a tap. Today's date is an opaque string parameter.

Modules: `Text` (string trimming), `Progression`, `Modes`, `Session`, `Leaderboard` and `Game`. `Wrappers` holds `Option`.

## Model

| member | source | states |
|---|---|---|
| Text.Trim | script.js:119-126 | the trimmed name is a middle slice of the input; everything cut off is whitespace, and neither end of the result is whitespace |
| Text.TrimIdempotent | script.js:119-126 | trimming twice is the same as trimming once |
| Text.TrimEmptyIffAllSpace | script.js:320-325 | a name is blank after trimming exactly when it is made only of whitespace (the login guard) |
| Progression.Level | script.js:136-138 | the level is the one whose 5000-point band holds the total; it is at least 1 for a non-negative total |
| Progression.LevelCrossing | script.js:140-145 | two totals fall in different level bands exactly when a level threshold lies between them |
| Progression.AddScore | script.js:140-145 | the total rises by exactly the points; a level-up is reported exactly when a multiple of 5000 is crossed; nothing else changes |
| Progression.UpgradeHoe | script.js:151-158 | below 999 the level becomes min(999, level + amount) and true is returned; at or above 999 nothing changes and false is returned; the level never passes 999 this way |
| Progression.UpgradeHoeReportsChange | script.js:151-158 | with a positive amount the level never drops, stays within 1..999, and true is returned exactly when it moved |
| Progression.UpdateEndlessBest | script.js:160-167 | the best becomes max(old best, score); the result is true exactly when the score is strictly higher, which is exactly when the record changed |
| Progression.SetName | script.js:119-122 | the stored name is the typed name trimmed; the score, hoe level and best are untouched |
| Progression.ResetForNewName | script.js:124-132 | the record becomes {typed name trimmed, 0, 1, 0}: valid, at level 1 |
| Progression.ResetForgetsPrior | script.js:124-132 | the reset record does not depend on the previous record |
| Progression.MaxLevel | script.js:101-104 | `Math.max(1, ...values)`: at least 1, at least every value, and equal to 1 or to one of the values |
| Progression.Load | script.js:95-113 | nothing readable stored leaves the record as it is; otherwise the stored name, total and best override the current ones |
| Progression.LoadSaveRoundTrip | script.js:95-117 | loading the saved form of a record gives back that record |
| Progression.LegacyMigration | script.js:100-108 | a legacy map without a stored `hoeLevel` loads as the map's largest level (at least 1) |
| Progression.StoredHoeOverridesMigration | script.js:104-108 | a stored `hoeLevel` wins over the level migrated from the legacy map, because the stored fields are spread last |
| Progression.HoeKeptWithoutStoredLevel | script.js:108 | without a legacy map or a stored `hoeLevel`, the hoe level is kept |
| Progression.LegacyExample | script.js:100-108 | levels {3, 7} with total 100 load as hoe level 7, total 100, defaults elsewhere |
| Modes.Config | script.js:176-181 | only the endless mode is endless; timed modes have a positive duration and target; base cost at least 10 and multiplier at least 1 |
| Modes.Mult10 | script.js:176-181 | ten times each mode's score multiplier is a whole number (10, 20, 30, 15) |
| Modes.UpgradeAmount | script.js:519-522 | the hoe levels a clear earns: 2 for normal, 3 for hard, 1 otherwise |
| Session.TapsNeeded | script.js:389-392 | taps per harvest is max(2, base - (hoe - 1) * 2), so never below 2 |
| Session.TapsNeededAntitone | script.js:389-392 | a higher hoe level never raises the taps per harvest |
| Session.TapsNeededStep | script.js:389-392 | each further hoe level takes two taps off, down to the floor of 2 |
| Session.Start | script.js:379-400 | with no player name nothing starts; otherwise a playing session of the chosen mode with all counters at zero, the timer at duration * 1000 (0 for endless), the taps from the hoe level, and the invariants holding |
| Session.StartForgetsPrior | script.js:394-400 | a started session does not depend on the session it replaces |
| Session.Gain | script.js:466-477 | a harvest gains 1 crop, or 11 exactly when the mode is endless and the tractor draw fires |
| Session.HarvestBonus | script.js:480-485 | the integer bonus equals floor(100 * scoreMult * (1 + combo * 0.1)) computed in exact reals, times 5 on a tractor harvest; at least 100 |
| Session.BonusExact | script.js:481 | mult10 * (10 + combo) equals the real formula exactly, so the floor loses nothing |
| Session.Harvest | script.js:465-493 | the gauge empties and the combo stays; the harvest count grows by the gain and the score by the bonus; nothing else changes |
| Session.Tap | script.js:441-455 | outside play nothing happens; in play: combo +1, score +10, gauge +1, and a harvest when the gauge fills (gauge 0, count + gain, score + bonus at the new combo); keeps 0 <= currentTaps < tapsNeeded |
| Session.Clock | script.js:426-434 | outside play nothing; endless adds 10 ms to the elapsed time; timed takes 10 ms off the time left; nothing else moves |
| Session.TapsBelowHarvest | script.js:441-455 | taps that do not fill the gauge move only combo, score and gauge, each by its per-tap amount |
| Session.TapsToHarvest | script.js:451-478 | from an empty gauge, exactly tapsNeeded taps make one harvest and leave the gauge empty, with the score the per-tap points plus the bonus |
| Leaderboard.FindIndex | script.js:588 | the index of the first entry with the name, and -1 exactly when there is none |
| Leaderboard.Upsert | script.js:588-596 | a player already on the board keeps the board's length; a player not on it is appended with the best and today's date |
| Leaderboard.UpsertSpec | script.js:588-596 | the found entry is raised to the best, with the new date, only if its score is lower, and a lookup then finds that entry; every other position is untouched |
| Leaderboard.UpsertUnique | script.js:588-596 | with unique names in, names stay unique and the player's only entry is the raised one |
| Leaderboard.InsertDesc | script.js:598 | insertion adds exactly the one entry |
| Leaderboard.InsertDescSorted | script.js:598 | insertion into a descending board keeps it descending |
| Leaderboard.SortDesc | script.js:598 | the sort is a permutation (same multiset) and is descending by score |
| Leaderboard.SortOfSorted | script.js:598 | sorting an already sorted board changes nothing |
| Leaderboard.SortAppendLowest | script.js:598 | an appended entry no higher than the rest stays at the end |
| Leaderboard.Truncate | script.js:599 | the result is the first min(10, n) entries |
| Leaderboard.TruncateKeepsTop | script.js:598-599 | after sorting, every entry cut off scores no more than every entry kept |
| Leaderboard.Submit | script.js:588-599 | the new board is sorted, holds min(10, n) entries where n counts an appended entry, is drawn from the updated entries, and holds their top scores |
| Leaderboard.SubmitPreservesValid | script.js:588-599 | from unique names the result has at most 10 entries, is sorted, and has one entry per name |
| Leaderboard.SubmitPlayerEntry | script.js:588-599 | the player's entry, if on the new board, is the raised one |
| Leaderboard.SubmitPlayerFellOff | script.js:588-599 | if the player's entry fell off, the board is full with ten entries scoring at least as much as it |
| Leaderboard.SubmitKeepsOthers | script.js:588-599 | every other entry on the new board was on the old board |
| Leaderboard.SubmitNeverLowers | script.js:588-599 | no name's score goes down |
| Leaderboard.SubmitIdempotent | script.js:588-599 | submitting the same best twice gives the board of the first submission, whatever the second date |
| Leaderboard.UpsertNoLower | script.js:589-596 | position by position, the find-and-update step never lowers a score |
| Leaderboard.ReentryNeedsHigher | script.js:588-599 | a name missing from a full board gets back on only with a best strictly above the lowest score; a tie is appended last, stays last through the stable sort, and is cut |
| Leaderboard.DrawnAtLeast | script.js:598-599 | entries drawn from a board whose scores are all at least t also score at least t |
| Leaderboard.FloorNeverDrops | script.js:588-599 | on a full valid board the update stays full and its lowest score never goes down |
| Leaderboard.OtherPushedOff | script.js:598-599 | another player's entry that an update pushes off leaves a full board whose lowest score is at least that entry's |
| Leaderboard.SubmitRemembers | script.js:588-599 | every update of a valid board keeps what it remembers of a name: all its entries score at least s, and it is on the board or the board is full with lowest score at least s |
| Leaderboard.RemembersOwn | script.js:588 | a board with unique names remembers each of its own entries |
| Leaderboard.RememberedNeverLower | script.js:588-599 | a board that remembers every entry of an earlier board shows no name with a lower score than before |
| Game.Ranking | script.js:576-599 | the best becomes max(best, score) and nothing else in the record changes; from unique names the new board is valid; the player's entry on it is the raised one, which keeps an older entry scoring at least the best; if it fell off, the board is full of entries scoring at least as much |
| Game.Boot | script.js:251-257 | the player record is the stored one loaded over the defaults; a saved name opens the menu and its absence the login screen; the session holds the constructor's values (script.js:183-193), no switch is pending, and the session invariants hold |
| Game.BootResumes | script.js:95-117 | a saved record with a name is resumed exactly as saved, on the menu |
| Game.BootFresh | script.js:84-92 | with nothing stored the game opens on the login screen with the default record |
| Game.BootInv | script.js:251-257 | a game opened from a valid record and board meets the whole invariant |
| Game.EndGame | script.js:509-524 | the phase becomes result; clear iff endless or the target is reached; the score is always added, with a level-up iff a threshold was crossed; the hoe is upgraded by the mode's amount only on a timed clear; the endless best and board change only in the endless mode |
| Game.TimeUpFails | script.js:514-524 | a timed session short of its target fails, keeps the hoe level, and still adds its score |
| Game.Step | script.js:273-369 | each control acts only in its own phase and does nothing elsewhere; a mode button on the menu starts a session; a tap in play is one `Session.Tap`; a tick in play moves the clock and runs `EndGame` exactly when a timed session has run out; stop runs `EndGame` in play and does nothing otherwise; the change-user button opens the login screen with a switch pending; a blank login does nothing; a login stores the typed name trimmed, resets the record exactly when a switch is pending, clears the switch and shows the menu; retry returns from the result screen to the menu |
| Game.ChooseStarts | script.js:274-276 | on the menu of a game meeting the invariant, a mode button always starts a session of that mode from zero |
| Game.LeavingPlayResolves | script.js:308-310 | a session in play is left only by a tick or the stop button, into the result screen, with its score added to the total |
| Game.StepPreservesInv | script.js:426-493 | every event keeps the gauge and timer invariants, hoe level in 1..999, a valid board, a player name past the login screen, and a pending switch only on the login screen |
| Game.StepMonotone | script.js:509-599 | except for the login that completes an identity switch, no event lowers the total, hoe level, endless best or any board score; taps, ticks and stop never lower score, combo or harvest count |
| Game.StepBoard | script.js:576-599 | an event either leaves the board alone or submits the player's best to it |
| Game.RunRemembers | script.js:588-599 | what the board remembers of a name (see `Leaderboard.SubmitRemembers`) survives any sequence of events |
| Game.RunBoardNeverLower | script.js:588-599 | across any sequence of events, identity switches included, no name on the board ever shows a lower score than it had at the start |
| Game.RunPreservesInv | script.js:426-493 | any sequence of events keeps the invariants |
| Game.RunMonotone | script.js:509-524 | across any number of events without the change-user button (and none pending), the total, hoe level and endless best never go down |
| Game.TimedSessionEnds | script.js:426-439 | a timed session with k ticks of time left is still playing after k - 1 ticks and is resolved on the k-th, with the clock at zero |
| Game.EndlessTicks | script.js:429-431 | k endless ticks add 10k ms and change nothing else |
| Game.EasyFirstHarvest | script.js:386-400 | easy mode at hoe level 1 needs 10 taps; 10 taps give 1 harvest, combo 10, score 300, and the session is still playing and not yet clear |

## Where the page's controls and their handlers differ

- **Stop button.** `startGame` shows the stop button only in the endless mode and hides it in timed modes (script.js:408-414). Its click handler checks only that a session is in play (script.js:308-310). `Game.Step` follows the handler: a stop ends any session in play.
- **Upgrade amount.** The mode table has a `recHoe` field (script.js:177-179) that nothing reads. `endGame` takes the hoe upgrade from the mode's name instead (script.js:519-522). The model uses the mode name, as `endGame` does, and leaves `recHoe` out.

## Left out

- Audio (`SoundManager`) and the cue names it plays are presentation, so they are not modelled. The same goes for the screen shake on every tenth combo.
- DOM work is presentation and is not modelled: element wiring, rendering, `spawnCrop`'s cosmetic crop, the result screen and the ranking HTML.
- The change-user confirmation dialog is presentation. Its "yes" is the `SwitchUser` event, which does what `startUserSwitch` does to the state: it shows the login screen and marks a switch as pending.
- Which control the page offers in which phase is read from the handlers and from the panels `showMenu`, `startGame`, `showResults` and `returnToMenu` show and hide. The page markup is not part of this model. The mode buttons are taken to be on the menu only, so `startGame`'s fallback login from the typed name (script.js:380-383) is never reached.
- `setInterval` is replaced by explicit `Tick` events. The 500 ms delay before the result screen is not modelled. The endless ranking of `showResults` is part of `EndGame`.
- `localStorage`, `JSON.parse`/`stringify` and the error catch are not modelled as I/O. A stored record is a `Stored` value with optional fields, and an absent or unreadable record is `None`. Fields of other JSON types, and unknown extra fields, are not modelled.
- The leaderboard is passed in and returned rather than read from and written to storage.
- `Math.random` becomes the `tractor` boolean, and `toLocaleDateString` becomes the `today` string.
- Session.HarvestBonus: the bonus is exact, so IEEE rounding is not modelled. In the easy mode at combo 36 the browser computes `100 * 1.0 * (1 + 36 * 0.1)` as 459.99999999999994 and floors it to 459, where the model gives 460. In the normal mode at combo 13 the browser's `100 * 2 * (1 + 13 * 0.1)` also floors to 459, where the model gives 460. Combo 13 is the first harvest of a normal session at hoe level 2, which needs 13 taps. Below combo 5000, both modes are off by one in the same way at exactly these 15 combos: 13, 31, 36, 72, 77, 154, 159, 313, 318, 631, 636, 1272, 1277, 2554 and 2559. The hard and endless modes are not affected below combo 5000.
- Numbers are unbounded integers. JavaScript loses integer precision beyond 2^53, which a game score does not reach.
- An unknown mode name is not modelled. The mode is an enumeration, and in the code an unknown name fails at the config lookup.
- The endless mode's `Infinity` target is represented by the `endless` flag. The `target` field is never consulted for that mode.
- Session.Start: when the player has no name, `startGame` first tries to log in with the text typed into the name box. That input is not modelled, so the session is left unchanged. In `Game.Step` this case never arises: the mode buttons act only on the menu, where a name is always set (`Game.ChooseStarts`).
- Leaderboard.SortDesc: stability (equal scores keep their order) is not stated in general. Only two special cases are proved: sorting an already sorted board changes nothing, and an appended entry no higher than the rest stays last.
