/** The whole game as one immutable state: the live session, the player's
    record and the endless leaderboard, moved by the events the page
    delivers (mode choice, tap, 10 ms clock tick, stop, change user,
    login, back to menu). End-of-session resolution (`endGame` with the
    endless ranking of `showResults`) is here because it writes into all
    three. */
module Game {
  import opened Modes
  import opened Text
  import opened Wrappers
  import S = Session
  import P = Progression
  import L = Leaderboard

  /** `switching` is `isSwitchingUser`: a confirmed identity switch whose
      login is still pending. */
  datatype App = App(session: S.Session, user: P.Player, board: L.Board, switching: bool)

  /** What the result screen reports. */
  datatype Outcome = Outcome(isClear: bool, playerLeveledUp: bool, hoeLeveledUp: bool)

  /** The page's controls. Each is offered only in one phase: the mode
      buttons and the change-user button on the menu, the login form on the
      login screen, the tap and stop buttons while playing (the page shows
      the stop button only in the endless mode; the model follows its
      handler, which checks only that a session is in play), the retry
      button on the result screen. `tractor` is the random draw of the harvest a
      tap may cause; `SwitchUser` is the confirmed change of identity. */
  datatype Event =
    | Choose(mode: Mode)
    | Press(tractor: bool)
    | Tick
    | StopPressed
    | SwitchUser
    | Login(name: string)
    | BackToMenu

  /** Besides the parts' own invariants: past the login screen there is a
      player name, and a pending switch keeps the login screen up. */
  predicate Inv(a: App) {
    && S.Inv(a.session) && P.Valid(a.user) && L.Valid(a.board)
    && (a.session.phase != S.Login ==> a.user.name != [])
    && (a.switching ==> a.session.phase == S.Login)
  }

  /** Opening the page (the constructors and `init`): the record is loaded
      over the defaults; a saved name opens the menu at once, otherwise the
      login screen shows. The session holds the constructor's values. */
  function Boot(stored: Option<P.Stored>, board: L.Board): (a: App)
    ensures a.session.phase == S.Menu <==> a.user.name != []
    ensures a.session.phase == S.Login <==> a.user.name == []
    ensures a.session.(phase := S.Login) == S.Initial()
    ensures S.Inv(a.session) && !a.switching && a.board == board
    ensures a.user == P.Load(P.Defaults(), stored)
  {
    var u := P.Load(P.Defaults(), stored);
    App(S.Initial().(phase := if u.name == [] then S.Login else S.Menu), u, board, false)
  }

  /** A saved record with a name is resumed as it was saved, on the menu. */
  lemma BootResumes(p: P.Player, board: L.Board)
    requires p.name != []
    ensures Boot(Some(P.Save(p)), board).user == p
    ensures Boot(Some(P.Save(p)), board).session.phase == S.Menu
  {
    P.LoadSaveRoundTrip(P.Defaults(), p);
  }

  /** With nothing stored the game opens on the login screen with the
      default record. */
  lemma BootFresh(board: L.Board)
    ensures Boot(None, board).user == P.Defaults()
    ensures Boot(None, board).session.phase == S.Login
  {
  }

  /** A game opened from a valid record and board meets the invariant. */
  lemma BootInv(stored: Option<P.Stored>, board: L.Board)
    requires P.Valid(P.Load(P.Defaults(), stored)) && L.Valid(board)
    ensures Inv(Boot(stored, board))
  {
  }

  /** The endless ranking: the player's best is raised to the score if it is
      higher, and the board is updated with the player's best under today's
      date. The player's entry on the new board is the raised one, which
      keeps an older entry that scores at least as much; if it fell off,
      the board is full of entries scoring at least as much. */
  function Ranking(u: P.Player, score: int, board: L.Board, today: string): (r: (P.Player, L.Board))
    ensures r.0 == u.(endlessBest := if score > u.endlessBest then score else u.endlessBest)
    ensures L.UniqueNames(board) ==> L.Valid(r.1)
    ensures L.UniqueNames(board) ==>
              forall j :: 0 <= j < |r.1| && r.1[j].name == u.name ==>
                r.1[j] == L.Raised(L.Lookup(board, u.name), u.name, r.0.endlessBest, today)
    ensures !L.Has(r.1, u.name) ==>
              && |r.1| == L.Capacity
              && forall i :: 0 <= i < |r.1| ==>
                   r.1[i].score >= L.Raised(L.Lookup(board, u.name), u.name, r.0.endlessBest, today).score
  {
    var u1 := P.UpdateEndlessBest(u, score).0;
    assert L.UniqueNames(board) ==>
             L.Valid(L.Submit(board, u.name, u1.endlessBest, today))
             && forall j :: 0 <= j < |L.Submit(board, u.name, u1.endlessBest, today)|
                            && L.Submit(board, u.name, u1.endlessBest, today)[j].name == u.name ==>
                  L.Submit(board, u.name, u1.endlessBest, today)[j]
                  == L.Raised(L.Lookup(board, u.name), u.name, u1.endlessBest, today)
    by {
      if L.UniqueNames(board) {
        L.SubmitPreservesValid(board, u.name, u1.endlessBest, today);
        L.SubmitPlayerEntry(board, u.name, u1.endlessBest, today);
      }
    }
    L.SubmitPlayerFellOff(board, u.name, u1.endlessBest, today);
    (u1, L.Submit(board, u1.name, u1.endlessBest, today))
  }

  /** endGame (and, for the endless mode, the ranking of showResults): the
      session moves to Result untouched otherwise; the session score is
      always added to the total; a cleared timed session upgrades the hoe by
      its mode's amount; an endless session updates the best and the board;
      nothing else changes. */
  function EndGame(a: App, today: string): (r: (App, Outcome))
    ensures r.0.session == a.session.(phase := S.Result)
    ensures r.0.switching == a.switching
    ensures r.1.isClear <==> Config(a.session.mode).endless
                             || a.session.harvested >= Config(a.session.mode).target
    ensures r.0.user.name == a.user.name
    ensures r.0.user.totalScore == a.user.totalScore + a.session.score
    ensures r.1.playerLeveledUp <==>
              exists k :: a.user.totalScore < P.Threshold(k) <= a.user.totalScore + a.session.score
    ensures r.1.isClear && !Config(a.session.mode).endless ==>
              && (r.1.hoeLeveledUp <==> a.user.hoeLevel < P.MaxHoe)
              && r.0.user.hoeLevel ==
                 (if a.user.hoeLevel >= P.MaxHoe then a.user.hoeLevel
                  else if a.user.hoeLevel + UpgradeAmount(a.session.mode) < P.MaxHoe
                  then a.user.hoeLevel + UpgradeAmount(a.session.mode)
                  else P.MaxHoe)
    ensures !(r.1.isClear && !Config(a.session.mode).endless) ==>
              !r.1.hoeLeveledUp && r.0.user.hoeLevel == a.user.hoeLevel
    ensures Config(a.session.mode).endless ==>
              && r.0.user.endlessBest == (if a.session.score > a.user.endlessBest
                                          then a.session.score else a.user.endlessBest)
              && r.0.board == L.Submit(a.board, a.user.name, r.0.user.endlessBest, today)
    ensures !Config(a.session.mode).endless ==>
              r.0.user.endlessBest == a.user.endlessBest && r.0.board == a.board
  {
    var s := a.session;
    var cfg := Config(s.mode);
    var clear := S.IsClear(s);
    var (u1, leveled) := P.AddScore(a.user, s.score);
    var (u2, hoeUp) := if clear && !cfg.endless then P.UpgradeHoe(u1, UpgradeAmount(s.mode)) else (u1, false);
    var (u3, board) := if cfg.endless then Ranking(u2, s.score, a.board, today) else (u2, a.board);
    (a.(session := s.(phase := S.Result), user := u3, board := board), Outcome(clear, leveled, hoeUp))
  }

  /** A timed session that ran out with fewer harvests than the target
      fails: no hoe change, but the score still counts. */
  lemma TimeUpFails(a: App, today: string)
    requires !Config(a.session.mode).endless
    requires a.session.harvested < Config(a.session.mode).target
    ensures !EndGame(a, today).1.isClear && !EndGame(a, today).1.hoeLeveledUp
    ensures EndGame(a, today).0.user.hoeLevel == a.user.hoeLevel
    ensures EndGame(a, today).0.user.totalScore == a.user.totalScore + a.session.score
  {
  }

  /** One event. A control used outside its phase does nothing. A mode
      button starts a session; taps and ticks act only in play, and a tick
      that runs a timed session out of time ends it; stop ends a session in
      play; the change-user button opens the login screen for a switch; a
      login with a blank name does nothing, otherwise it stores the trimmed
      name (starting a fresh record when switching) and shows the menu; the
      retry button returns from the result screen to the menu. */
  function Step(a: App, ev: Event, today: string): (r: App)
    ensures ev.Choose? && a.session.phase != S.Menu ==> r == a
    ensures ev.Choose? && a.session.phase == S.Menu ==>
              r == a.(session := S.Start(a.session, a.user, ev.mode))
    ensures ev.Press? || ev.Tick? ==> (a.session.phase != S.Playing ==> r == a)
    ensures ev.Press? && a.session.phase == S.Playing ==>
              r == a.(session := S.Tap(a.session, ev.tractor))
    ensures ev.Tick? && a.session.phase == S.Playing ==>
              r == (if S.TimedOut(S.Clock(a.session))
                    then EndGame(a.(session := S.Clock(a.session)), today).0
                    else a.(session := S.Clock(a.session)))
    ensures ev.StopPressed? ==>
              r == (if a.session.phase == S.Playing then EndGame(a, today).0 else a)
    ensures ev.Tick? && a.session.phase == S.Playing && Config(a.session.mode).endless ==>
              r.session.phase == S.Playing
    ensures ev.SwitchUser? && a.session.phase != S.Menu ==> r == a
    ensures ev.SwitchUser? && a.session.phase == S.Menu ==>
              r == a.(session := a.session.(phase := S.Login), switching := true)
    ensures ev.Login? && (a.session.phase != S.Login || AllSpace(ev.name)) ==> r == a
    ensures ev.Login? && a.session.phase == S.Login && !AllSpace(ev.name) ==>
              && r.session == a.session.(phase := S.Menu) && !r.switching && r.board == a.board
              && r.user.name == Trim(ev.name) && r.user.name != []
              && r.user == (if a.switching then P.ResetForNewName(a.user, ev.name)
                            else P.SetName(a.user, ev.name))
    ensures ev.BackToMenu? && a.session.phase != S.Result ==> r == a
    ensures ev.BackToMenu? && a.session.phase == S.Result ==>
              r == a.(session := a.session.(phase := S.Menu))
    ensures r.switching ==> a.switching || ev.SwitchUser?
  {
    match ev
    case Choose(m) =>
      if a.session.phase == S.Menu then a.(session := S.Start(a.session, a.user, m)) else a
    case Press(tractor) => a.(session := S.Tap(a.session, tractor))
    case Tick =>
      if a.session.phase != S.Playing then a
      else
        var s := S.Clock(a.session);
        if S.TimedOut(s) then EndGame(a.(session := s), today).0 else a.(session := s)
    case StopPressed =>
      if a.session.phase == S.Playing then EndGame(a, today).0 else a
    case SwitchUser =>
      if a.session.phase == S.Menu then a.(session := a.session.(phase := S.Login), switching := true)
      else a
    case Login(name) =>
      TrimEmptyIffAllSpace(name);
      if a.session.phase != S.Login || Trim(name) == [] then a
      else
        var u := if a.switching then P.ResetForNewName(a.user, name) else P.SetName(a.user, name);
        App(a.session.(phase := S.Menu), u, a.board, false)
    case BackToMenu =>
      if a.session.phase == S.Result then a.(session := a.session.(phase := S.Menu)) else a
  }

  /** On the menu of a game meeting the invariant a mode button always
      starts a session (there is a player name), of that mode, from zero. */
  lemma ChooseStarts(a: App, m: Mode, today: string)
    requires Inv(a) && a.session.phase == S.Menu
    ensures Step(a, Choose(m), today).session.phase == S.Playing
    ensures Step(a, Choose(m), today).session.mode == m
    ensures Step(a, Choose(m), today).session.score == 0
  {
  }

  /** A session in play is left only through endGame, by a tick or the stop
      button: the phase becomes Result and the session's score is banked. */
  lemma LeavingPlayResolves(a: App, ev: Event, today: string)
    requires a.session.phase == S.Playing
    ensures var r := Step(a, ev, today);
            r.session.phase != S.Playing ==>
              && (ev.Tick? || ev.StopPressed?)
              && r.session.phase == S.Result
              && r.user.totalScore == a.user.totalScore + a.session.score
  {
  }

  /** Every event keeps the gauge and timer invariants, the record in range
      (hoe level in 1..999), the board valid (at most ten entries, sorted,
      one per name), and a name past the login screen. */
  lemma StepPreservesInv(a: App, ev: Event, today: string)
    requires Inv(a)
    ensures Inv(Step(a, ev, today))
  {
    match ev
    case Tick =>
      if a.session.phase == S.Playing {
        var s := S.Clock(a.session);
        if S.TimedOut(s) {
          EndGameKeepsValid(a.(session := s), today);
        }
      }
    case StopPressed =>
      if a.session.phase == S.Playing {
        EndGameKeepsValid(a, today);
      }
    case _ =>
  }

  lemma EndGameKeepsValid(a: App, today: string)
    requires P.Valid(a.user) && L.Valid(a.board)
    ensures P.Valid(EndGame(a, today).0.user) && L.Valid(EndGame(a, today).0.board)
  {
  }

  /** The record's total, hoe level and endless best did not go down. */
  predicate Progressed(a: App, b: App) {
    && b.user.totalScore >= a.user.totalScore
    && b.user.hoeLevel >= a.user.hoeLevel
    && b.user.endlessBest >= a.user.endlessBest
  }

  /** No name on the earlier board has a lower score on the later one. */
  predicate BoardNeverLower(a: App, b: App) {
    L.NeverLower(a.board, b.board)
  }

  /** Within a session, combo, score and harvest count only grow. */
  predicate SessionGrew(a: App, b: App) {
    && b.session.score >= a.session.score
    && b.session.combo >= a.session.combo
    && b.session.harvested >= a.session.harvested
  }

  /** Every event except the login that completes an identity switch keeps
      the progression monotone and never lowers a board score; taps, ticks
      and stops also never lower the session counters. */
  lemma StepMonotone(a: App, ev: Event, today: string)
    requires L.UniqueNames(a.board)
    requires !(ev.Login? && a.switching)
    ensures Progressed(a, Step(a, ev, today))
    ensures BoardNeverLower(a, Step(a, ev, today))
    ensures ev.Press? || ev.Tick? || ev.StopPressed? ==> SessionGrew(a, Step(a, ev, today))
  {
    match ev
    case Tick =>
      if a.session.phase == S.Playing {
        var s := S.Clock(a.session);
        if S.TimedOut(s) {
          EndGameMonotone(a.(session := s), today);
        }
      }
    case StopPressed =>
      if a.session.phase == S.Playing {
        EndGameMonotone(a, today);
      }
    case _ =>
  }

  lemma EndGameMonotone(a: App, today: string)
    requires L.UniqueNames(a.board)
    ensures Progressed(a, EndGame(a, today).0)
    ensures BoardNeverLower(a, EndGame(a, today).0)
  {
    if Config(a.session.mode).endless {
      var u2 := P.UpdateEndlessBest(P.AddScore(a.user, a.session.score).0, a.session.score).0;
      L.SubmitNeverLowers(a.board, u2.name, u2.endlessBest, today);
    }
  }

  /** An event leaves the board alone or submits the player's best to it. */
  lemma StepBoard(a: App, ev: Event, today: string)
    ensures var r := Step(a, ev, today);
            r.board == a.board || r.board == L.Submit(a.board, a.user.name, r.user.endlessBest, today)
  {
  }

  /** Events in order. */
  function Run(a: App, evs: seq<Event>, today: string): App
    decreases |evs|
  {
    if |evs| == 0 then a else Run(Step(a, evs[0], today), evs[1..], today)
  }

  lemma {:induction false} RunPreservesInv(a: App, evs: seq<Event>, today: string)
    requires Inv(a)
    ensures Inv(Run(a, evs, today))
    decreases |evs|
  {
    if |evs| > 0 {
      StepPreservesInv(a, evs[0], today);
      RunPreservesInv(Step(a, evs[0], today), evs[1..], today);
    }
  }

  /** Across any number of sessions, as long as the identity is not
      switched, the total score, hoe level and endless best never go down. */
  lemma {:induction false} RunMonotone(a: App, evs: seq<Event>, today: string)
    requires Inv(a) && !a.switching
    requires forall i :: 0 <= i < |evs| ==> !evs[i].SwitchUser?
    ensures Progressed(a, Run(a, evs, today))
    decreases |evs|
  {
    if |evs| > 0 {
      StepMonotone(a, evs[0], today);
      StepPreservesInv(a, evs[0], today);
      RunMonotone(Step(a, evs[0], today), evs[1..], today);
    }
  }

  function Ticks(n: nat): (evs: seq<Event>)
    ensures |evs| == n
    ensures forall i :: 0 <= i < n ==> evs[i] == Tick
  {
    seq(n, _ => Tick)
  }

  /** A timed session with `k` ticks' worth of time left (and no taps in
      between) is still in play after `k - 1` ticks and ends on the `k`-th,
      resolving exactly as endGame does with the clock at zero. */
  lemma {:induction false} TimedSessionEnds(a: App, k: nat, today: string)
    requires a.session.phase == S.Playing && !Config(a.session.mode).endless
    requires k >= 1 && a.session.timeLeft == S.TickMs * k
    ensures Run(a, Ticks(k), today) == EndGame(a.(session := a.session.(timeLeft := 0)), today).0
    ensures Run(a, Ticks(k - 1), today).session.phase == S.Playing
    decreases k
  {
    var b := Step(a, Tick, today);
    assert Ticks(k)[1..] == Ticks(k - 1);
    if k == 1 {
      assert b == EndGame(a.(session := a.session.(timeLeft := 0)), today).0;
    } else {
      assert b == a.(session := a.session.(timeLeft := S.TickMs * (k - 1)));
      TimedSessionEnds(b, k - 1, today);
      assert Ticks(k - 1)[1..] == Ticks(k - 2);
    }
  }

  /** Endless time only counts up: `k` ticks add `10 * k` ms and change
      nothing else. */
  lemma {:induction false} EndlessTicks(a: App, k: nat, today: string)
    requires a.session.phase == S.Playing && Config(a.session.mode).endless
    ensures Run(a, Ticks(k), today) == a.(session := a.session.(elapsed := a.session.elapsed + S.TickMs * k))
    decreases k
  {
    if k > 0 {
      assert Ticks(k)[1..] == Ticks(k - 1);
      EndlessTicks(Step(a, Tick, today), k - 1, today);
    }
  }

  /** An easy session with hoe level 1 needs ten taps per harvest; ten taps
      harvest one crop with combo 10 and score 10 * 10 + 200 = 300, and the
      session, short of its target of 5, is still in play. */
  lemma EasyFirstHarvest(a: App)
    requires a.user.name != [] && a.user.hoeLevel == 1
    ensures var s := S.Start(a.session, a.user, Easy);
            && s.tapsNeeded == 10
            && var t := S.Taps(s, 10);
               t.harvested == 1 && t.combo == 10 && t.score == 300
               && t.phase == S.Playing && !S.IsClear(t)
  {
    var s := S.Start(a.session, a.user, Easy);
    S.TapsToHarvest(s);
  }

  /** What the board remembers of a name survives any events. */
  lemma {:induction false} RunRemembers(a: App, evs: seq<Event>, today: string, q: string, s: int)
    requires Inv(a) && L.Remembers(a.board, q, s)
    ensures L.Remembers(Run(a, evs, today).board, q, s)
    decreases |evs|
  {
    if |evs| > 0 {
      var b := Step(a, evs[0], today);
      StepBoard(a, evs[0], today);
      if b.board != a.board {
        L.SubmitRemembers(a.board, a.user.name, b.user.endlessBest, today, q, s);
      }
      StepPreservesInv(a, evs[0], today);
      RunRemembers(b, evs[1..], today, q, s);
    }
  }

  /** Across any events, identity switches included, no name on the board
      ever shows a lower score than it had: a name pushed off a full board
      can come back only with a best above the board's lowest score, which
      never drops. */
  lemma RunBoardNeverLower(a: App, evs: seq<Event>, today: string)
    requires Inv(a)
    ensures BoardNeverLower(a, Run(a, evs, today))
  {
    var after := Run(a, evs, today).board;
    forall j | 0 <= j < |a.board|
      ensures L.Remembers(after, a.board[j].name, a.board[j].score)
    {
      L.RemembersOwn(a.board, j);
      RunRemembers(a, evs, today, a.board[j].name, a.board[j].score);
    }
    L.RememberedNeverLower(a.board, after);
  }
}
