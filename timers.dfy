/**
 * The game clock (app/timers.py): the registries of background tasks, one
 * clock tick for the player to move with main time and byo-yomi periods,
 * the condition under which the clock runs, and the condition under which
 * a finished game is purged.
 */
module Timers {
  import opened Wrappers
  import opened Text
  import opened Engine

  // ---------------------------------------------------------------------
  // Task registries

  /**
   * The module-level dictionaries `timer_tasks` and `join_timeout_tasks`,
   * from game id to task. A task is a token numbered in creation order, so
   * that replacing a running task would be visible.
   */
  class Registry {
    var timerTasks: map<string, nat>
    var joinTimeoutTasks: map<string, nat>
    var created: nat

    /** Every registered task was created before, and no task is registered under two entries. */
    ghost predicate Valid()
      reads this
    {
      && (forall id :: id in timerTasks ==> timerTasks[id] < created)
      && (forall id :: id in joinTimeoutTasks ==> joinTimeoutTasks[id] < created)
      && (forall a, b :: a in timerTasks && b in timerTasks && a != b ==> timerTasks[a] != timerTasks[b])
      && (forall a, b :: a in joinTimeoutTasks && b in joinTimeoutTasks && a != b ==>
            joinTimeoutTasks[a] != joinTimeoutTasks[b])
      && (forall a, b :: a in timerTasks && b in joinTimeoutTasks ==> timerTasks[a] != joinTimeoutTasks[b])
    }

    constructor()
      ensures Valid() && timerTasks == map[] && joinTimeoutTasks == map[]
    {
      timerTasks := map[];
      joinTimeoutTasks := map[];
      created := 0;
    }

    /** start_timer_for_game: a new tracking task, unless the game already has one. */
    method StartTimer(gameId: string)
      requires Valid()
      modifies this
      ensures Valid() && gameId in timerTasks && joinTimeoutTasks == old(joinTimeoutTasks)
      ensures gameId in old(timerTasks) ==> timerTasks == old(timerTasks) && created == old(created)
      ensures gameId !in old(timerTasks) ==>
                timerTasks == old(timerTasks)[gameId := old(created)] && created == old(created) + 1
    {
      if gameId !in timerTasks {
        timerTasks := timerTasks[gameId := created];
        created := created + 1;
      }
    }

    /** stop_timer_for_game: the game's tracking task is removed, and returned to be cancelled if there was one. */
    method StopTimer(gameId: string) returns (cancelled: Option<nat>)
      requires Valid()
      modifies this`timerTasks
      ensures Valid()
      ensures timerTasks == old(timerTasks) - {gameId}
      ensures cancelled == if gameId in old(timerTasks) then Some(old(timerTasks)[gameId]) else None
    {
      if gameId in timerTasks {
        cancelled := Some(timerTasks[gameId]);
        timerTasks := timerTasks - {gameId};
      } else {
        cancelled := None;
      }
    }

    /** start_join_timeout_for_game: a new join-timeout task, unless the game already has one. */
    method StartJoinTimeout(gameId: string)
      requires Valid()
      modifies this
      ensures Valid() && gameId in joinTimeoutTasks && timerTasks == old(timerTasks)
      ensures gameId in old(joinTimeoutTasks) ==> joinTimeoutTasks == old(joinTimeoutTasks) && created == old(created)
      ensures gameId !in old(joinTimeoutTasks) ==>
                joinTimeoutTasks == old(joinTimeoutTasks)[gameId := old(created)] && created == old(created) + 1
    {
      if gameId !in joinTimeoutTasks {
        joinTimeoutTasks := joinTimeoutTasks[gameId := created];
        created := created + 1;
      }
    }

    /** The tracking loop's first step: once someone is seated, the join-timeout task is removed for cancelling. */
    method PlayerSeated(gameId: string, seated: nat) returns (cancelled: Option<nat>)
      requires Valid()
      modifies this`joinTimeoutTasks
      ensures Valid()
      ensures seated >= 1 && gameId in old(joinTimeoutTasks) ==>
                joinTimeoutTasks == old(joinTimeoutTasks) - {gameId} && cancelled == Some(old(joinTimeoutTasks)[gameId])
      ensures !(seated >= 1 && gameId in old(joinTimeoutTasks)) ==>
                joinTimeoutTasks == old(joinTimeoutTasks) && cancelled == None
    {
      if seated >= 1 && gameId in joinTimeoutTasks {
        cancelled := Some(joinTimeoutTasks[gameId]);
        joinTimeoutTasks := joinTimeoutTasks - {gameId};
      } else {
        cancelled := None;
      }
    }
  }

  // ---------------------------------------------------------------------
  // Python's int() on the time-control text

  /** A run of ASCII digits with single underscores between them, as int() accepts. */
  predicate DigitRun(s: string) {
    && |s| >= 1 && IsDigit(s[0]) && IsDigit(s[|s| - 1])
    && (forall k :: 0 <= k < |s| ==> IsDigit(s[k]) || s[k] == '_')
    && (forall k :: 0 <= k < |s| - 1 ==> s[k] == '_' ==> s[k + 1] != '_')
  }

  predicate IsDigit(c: char) {
    '0' <= c <= '9'
  }

  /** The digits of a run, without its underscores. */
  function Unscored(s: string): (r: string)
    ensures |r| <= |s|
  {
    if s == [] then []
    else (if s[0] == '_' then [] else [s[0]]) + Unscored(s[1..])
  }

  /** int(text): surrounding whitespace, an optional sign, then a digit run; None where Python raises ValueError. */
  function ParseInt(text: string): (r: Option<int>)
    ensures r.Some? ==> var t := Strip(text); t != [] && (IsDigit(t[0]) || t[0] == '+' || t[0] == '-')
    ensures r.Some? && r.value < 0 ==> Strip(text)[0] == '-'
  {
    var t := Strip(text);
    if t == [] then None
    else
      var negative := t[0] == '-';
      var body := if t[0] == '-' || t[0] == '+' then t[1..] else t;
      if !DigitRun(body) then None
      else match DecimalValue(Unscored(body))
        case None => None
        case Some(v) =>
          var value: int := if negative then -(v as int) else v;
          Some(value)
  }

  /** The main time a player starts with: the time control read as whole seconds, or 300 when it is no number. */
  function InitialTime(timeControl: string): (r: int)
    ensures ParseInt(timeControl).Some? ==> r == ParseInt(timeControl).value
    ensures ParseInt(timeControl).None? ==> r == 300
  {
    match ParseInt(timeControl)
    case Some(v) => v
    case None => 300
  }

  /** Every character of a printed number is a digit. */
  lemma {:induction false} DecimalDigits(n: nat)
    ensures forall k :: 0 <= k < |Decimal(n)| ==> IsDigit(Decimal(n)[k])
  {
    if n >= 10 {
      DecimalDigits(n / 10);
    }
  }

  /** A run of digits alone is its own digit run. */
  lemma {:induction false} UnscoredDigits(s: string)
    requires forall k :: 0 <= k < |s| ==> IsDigit(s[k])
    ensures Unscored(s) == s
  {
    if s != [] {
      UnscoredDigits(s[1..]);
      assert s == [s[0]] + s[1..];
    }
  }

  /** Text that neither starts nor ends with whitespace is left as it is by strip. */
  lemma StripKeeps(t: string)
    requires t != [] && !IsSpace(t[0]) && !IsSpace(t[|t| - 1])
    ensures Strip(t) == t
  {
  }

  /** Digits and signs are not whitespace. */
  lemma NotSpace(c: char)
    requires IsDigit(c) || c == '+' || c == '-'
    ensures !IsSpace(c)
  {
  }

  /** A digit run is read as its value. */
  lemma ParseUnsigned(d: string, v: nat)
    requires DigitRun(d) && DecimalValue(Unscored(d)) == Some(v)
    ensures ParseInt(d) == Some(v)
  {
    NotSpace(d[0]);
    NotSpace(d[|d| - 1]);
    StripKeeps(d);
  }

  /** A sign before a digit run is read as the run's value with that sign. */
  lemma ParseSigned(sign: char, d: string, v: nat)
    requires sign == '+' || sign == '-'
    requires DigitRun(d) && DecimalValue(Unscored(d)) == Some(v)
    ensures ParseInt([sign] + d) == Some(if sign == '-' then -(v as int) else v)
  {
    var t := [sign] + d;
    assert t[0] == sign && t[|t| - 1] == d[|d| - 1];
    NotSpace(sign);
    NotSpace(d[|d| - 1]);
    StripKeeps(t);
    assert t[1..] == d;
  }

  /** A time control written as a number of seconds, signed or not, is read as that number. */
  lemma ParsePrinted(n: nat)
    ensures ParseInt(Decimal(n)) == Some(n)
    ensures ParseInt("+" + Decimal(n)) == Some(n)
    ensures ParseInt("-" + Decimal(n)) == Some(-(n as int))
  {
    var d := Decimal(n);
    DecimalDigits(n);
    UnscoredDigits(d);
    DecimalRoundTrip(n);
    assert DigitRun(d);
    ParseUnsigned(d, n);
    ParseSigned('+', d, n);
    ParseSigned('-', d, n);
  }

  /** Texts that are not numbers give the 300-second default. */
  lemma DefaultTime()
    ensures InitialTime("") == 300 && InitialTime("fast") == 300 && InitialTime("1__0") == 300
  {
    StripKeeps("fast");
    assert !DigitRun("fast") by {
      assert !IsDigit("fast"[0]);
    }
    StripKeeps("1__0");
    assert !DigitRun("1__0") by {
      assert "1__0"[1] == '_' && "1__0"[2] == '_';
    }
  }

  // ---------------------------------------------------------------------
  // One clock tick

  /** The per-player clock dictionaries of a timed game. */
  datatype Clocks = Clocks(timeLeft: map<string, int>, byoYomiTimeLeft: map<string, int>, periodsLeft: map<string, int>)

  /** The time settings of a game: the time-control text, the number and length of byo-yomi periods. */
  datatype Settings = Settings(timeControl: string, byoYomiPeriods: int, byoYomiTime: int)

  /**
   * How a tick ends: no player to move (nothing saved), a second counted,
   * the mover out of time (the game ended), or a missing clock entry
   * (Python raises KeyError).
   */
  datatype Tick = NoMover | Counted | OutOfTime | MissingEntry

  function Max(a: int, b: int): int {
    if a >= b then a else b
  }

  /** The clocks once the mover's missing entries are initialised; `initial` is the main time a new entry starts with. */
  function Initialised(c: Clocks, p: string, s: Settings, initial: int): (r: Clocks)
    ensures p in r.timeLeft
    ensures s.byoYomiPeriods > 0 ==> p in r.byoYomiTimeLeft && p in r.periodsLeft
  {
    var c1 := if p in c.timeLeft then c else c.(timeLeft := c.timeLeft[p := initial]);
    if s.byoYomiPeriods <= 0 then c1
    else
      var c2 := if p in c1.byoYomiTimeLeft then c1 else c1.(byoYomiTimeLeft := c1.byoYomiTimeLeft[p := s.byoYomiTime]);
      if p in c2.periodsLeft then c2 else c2.(periodsLeft := c2.periodsLeft[p := s.byoYomiPeriods])
  }

  /** The clocks after one tick for mover `p`, and how the tick ended. */
  function Step(c: Clocks, p: string, s: Settings, initial: int): (Clocks, Tick) {
    CountDown(Initialised(c, p, s, initial), p, s)
  }

  /** The count-down of an initialised clock: main time while there is some, byo-yomi after. */
  function CountDown(c: Clocks, p: string, s: Settings): (Clocks, Tick)
    requires p in c.timeLeft
  {
    var main := c.timeLeft[p];
    if main > 0 then
      var left := Max(0, main - 1);
      (c.(timeLeft := c.timeLeft[p := left]), if left == 0 && s.byoYomiPeriods == 0 then OutOfTime else Counted)
    else ByoYomi(c, p, s)
  }

  function ByoYomi(c: Clocks, p: string, s: Settings): (Clocks, Tick) {
    if p !in c.byoYomiTimeLeft then (c, MissingEntry)
    else
      var byo := c.byoYomiTimeLeft[p] - 1;
      var c1 := c.(byoYomiTimeLeft := c.byoYomiTimeLeft[p := byo]);
      if byo > 0 then (c1, Counted)
      else if p !in c1.periodsLeft then (c1, MissingEntry)
      else
        var periods := c1.periodsLeft[p] - 1;
        var c2 := c1.(periodsLeft := c1.periodsLeft[p := periods]);
        if periods <= 0 then (c2, OutOfTime)
        else (c2.(byoYomiTimeLeft := c2.byoYomiTimeLeft[p := s.byoYomiTime]), Counted)
  }

  /** Two clocks agree on player q's entries. */
  predicate SameFor(c: Clocks, d: Clocks, q: string) {
    && (q in c.timeLeft <==> q in d.timeLeft) && (q in c.timeLeft ==> c.timeLeft[q] == d.timeLeft[q])
    && (q in c.byoYomiTimeLeft <==> q in d.byoYomiTimeLeft)
    && (q in c.byoYomiTimeLeft ==> c.byoYomiTimeLeft[q] == d.byoYomiTimeLeft[q])
    && (q in c.periodsLeft <==> q in d.periodsLeft) && (q in c.periodsLeft ==> c.periodsLeft[q] == d.periodsLeft[q])
  }

  /** Only the mover's clock entries change. */
  lemma StepFrame(c: Clocks, p: string, s: Settings, initial: int, q: string)
    requires q != p
    ensures SameFor(Step(c, p, s, initial).0, c, q)
  {
    var c1 := Initialised(c, p, s, initial);
    assert SameFor(c1, c, q);
    if c1.timeLeft[p] <= 0 {
      assert SameFor(ByoYomi(c1, p, s).0, c1, q);
    }
  }

  /**
   * While main time remains, a tick takes exactly one second off it, never
   * going below zero, and leaves the byo-yomi entries alone; the game ends
   * on time exactly when the last second goes and there is no byo-yomi.
   */
  lemma MainTimeTick(c: Clocks, p: string, s: Settings)
    requires p in c.timeLeft && c.timeLeft[p] > 0
    ensures var (c', t) := CountDown(c, p, s);
            && c'.timeLeft[p] == c.timeLeft[p] - 1 >= 0
            && c'.byoYomiTimeLeft == c.byoYomiTimeLeft && c'.periodsLeft == c.periodsLeft
            && (t == OutOfTime <==> c.timeLeft[p] == 1 && s.byoYomiPeriods == 0)
            && (t != OutOfTime ==> t == Counted)
  {
  }

  /**
   * A player out of main time: the period time goes down by one; when it
   * runs out a period is consumed and the period time starts again, and
   * when the last period is consumed the game ends on time. A missing
   * entry is an error.
   */
  lemma ByoYomiTick(c: Clocks, p: string, s: Settings)
    requires p in c.timeLeft && c.timeLeft[p] <= 0
    ensures var (c', t) := CountDown(c, p, s);
            && c'.timeLeft == c.timeLeft
            && (t == MissingEntry <==>
                  p !in c.byoYomiTimeLeft || (c.byoYomiTimeLeft[p] <= 1 && p !in c.periodsLeft))
            && (p in c.byoYomiTimeLeft && p in c.periodsLeft ==>
                  var byo := c.byoYomiTimeLeft[p] - 1;
                  var periods := c.periodsLeft[p] - 1;
                  && (byo > 0 ==> t == Counted && c'.byoYomiTimeLeft[p] == byo && c'.periodsLeft == c.periodsLeft)
                  && (byo <= 0 && periods <= 0 ==> t == OutOfTime && c'.periodsLeft[p] == periods)
                  && (byo <= 0 && periods > 0 ==>
                        t == Counted && c'.periodsLeft[p] == periods && c'.byoYomiTimeLeft[p] == s.byoYomiTime))
  {
  }

  /** A clock in byo-yomi play: entries present, main time not negative, at least one period, period time within its length. */
  predicate InStanding(c: Clocks, p: string, s: Settings) {
    && s.byoYomiPeriods > 0 && s.byoYomiTime >= 1
    && p in c.timeLeft && p in c.byoYomiTimeLeft && p in c.periodsLeft
    && c.timeLeft[p] >= 0 && c.periodsLeft[p] >= 1 && 1 <= c.byoYomiTimeLeft[p] <= s.byoYomiTime
  }

  /** The seconds a player in standing has left: main time, the untouched periods, and the current period's rest. */
  function Remaining(c: Clocks, p: string, s: Settings): int
    requires InStanding(c, p, s)
  {
    c.timeLeft[p] + (c.periodsLeft[p] - 1) * s.byoYomiTime + c.byoYomiTimeLeft[p]
  }

  /**
   * Every tick costs the mover exactly one second of everything left to
   * them; the game ends on time exactly at the last second, and otherwise
   * the clock stays in standing.
   */
  lemma TickCostsOneSecond(c: Clocks, p: string, s: Settings, initial: int)
    requires InStanding(c, p, s)
    ensures var (c', t) := Step(c, p, s, initial);
            && (t == OutOfTime <==> Remaining(c, p, s) == 1)
            && (t != OutOfTime ==> t == Counted && InStanding(c', p, s) && Remaining(c', p, s) == Remaining(c, p, s) - 1)
  {
    var (c', t) := Step(c, p, s, initial);
    assert Initialised(c, p, s, initial) == c;
    var periods := c.periodsLeft[p];
    var byo := c.byoYomiTimeLeft[p];
    var len := s.byoYomiTime;
    if c.timeLeft[p] == 0 {
      if byo == 1 && periods > 1 {
        assert (periods - 1) * len == (periods - 2) * len + len;
        assert c'.periodsLeft[p] == periods - 1 && c'.byoYomiTimeLeft[p] == len;
      }
      if periods >= 2 {
        assert (periods - 1) * len >= len;
      }
    } else {
      assert (periods - 1) * len >= 0;
    }
  }

  /**
   * The clock dictionaries of a timed game. They are not part of the game
   * record's own fields; the timed game carries them beside it, together
   * with its time settings and scoring-phase flag.
   */
  class Clock {
    var timeLeft: map<string, int>
    var byoYomiTimeLeft: map<string, int>
    var periodsLeft: map<string, int>
    var settings: Settings
    var inScoringPhase: bool

    constructor(s: Settings)
      ensures settings == s && !inScoringPhase
      ensures timeLeft == map[] && byoYomiTimeLeft == map[] && periodsLeft == map[]
    {
      settings := s;
      inScoringPhase := false;
      timeLeft := map[];
      byoYomiTimeLeft := map[];
      periodsLeft := map[];
    }

    function Contents(): Clocks
      reads this
    {
      Clocks(timeLeft, byoYomiTimeLeft, periodsLeft)
    }

    /**
     * handle_time_controls: find the player whose colour is to move; without
     * one, stop. Otherwise initialise their missing clock entries, count
     * down one second of main time or of byo-yomi, and end the game by
     * timeout when the time is gone.
     */
    method HandleTimeControls(game: GameState) returns (tick: Tick)
      requires game.Valid()
      modifies this`timeLeft, this`byoYomiTimeLeft, this`periodsLeft
      modifies game`gameOver, game`gameOverReason, game`resignedPlayer, game`winner, game`finalScore
      ensures game.Valid()
      ensures var mover := FirstWithColour(game.players, game.currentTurn.Value());
              if mover.None? || mover.value == "" then
                tick == NoMover && Contents() == old(Contents())
              else
                (Contents(), tick) == Step(old(Contents()), mover.value, settings, InitialTime(settings.timeControl))
      ensures tick == OutOfTime ==>
                && game.gameOver && game.gameOverReason == Some("timeout")
                && game.winner == old(game.winner) && game.resignedPlayer == old(game.resignedPlayer)
                && game.finalScore == old(game.finalScore)
      ensures tick != OutOfTime ==>
                && game.gameOver == old(game.gameOver) && game.gameOverReason == old(game.gameOverReason)
                && game.winner == old(game.winner) && game.resignedPlayer == old(game.resignedPlayer)
                && game.finalScore == old(game.finalScore)
    {
      var mover := FirstWithColour(game.players, game.currentTurn.Value());
      if mover.None? || mover.value == "" {
        return NoMover;
      }
      var p := mover.value;
      InitialiseEntries(p);
      tick := CountDownMover(p);
      if tick == OutOfTime {
        game.EndGame("timeout", Some(p));
      }
    }

    /** The initialisation block of handle_time_controls. */
    method InitialiseEntries(p: string)
      modifies this`timeLeft, this`byoYomiTimeLeft, this`periodsLeft
      ensures Contents() == Initialised(old(Contents()), p, settings, InitialTime(settings.timeControl))
    {
      if p !in timeLeft {
        match ParseInt(settings.timeControl)
        case Some(v) => timeLeft := timeLeft[p := v];
        case None => timeLeft := timeLeft[p := 300];
      }
      if settings.byoYomiPeriods > 0 {
        if p !in byoYomiTimeLeft {
          byoYomiTimeLeft := byoYomiTimeLeft[p := settings.byoYomiTime];
        }
        if p !in periodsLeft {
          periodsLeft := periodsLeft[p := settings.byoYomiPeriods];
        }
      }
    }

    /** The count-down block of handle_time_controls, up to the point where it ends the game or saves. */
    method CountDownMover(p: string) returns (tick: Tick)
      requires p in timeLeft
      modifies this`timeLeft, this`byoYomiTimeLeft, this`periodsLeft
      ensures (Contents(), tick) == CountDown(old(Contents()), p, settings)
    {
      if timeLeft[p] > 0 {
        timeLeft := timeLeft[p := Max(0, timeLeft[p] - 1)];
        if timeLeft[p] == 0 && settings.byoYomiPeriods == 0 {
          return OutOfTime;
        }
      } else {
        if p !in byoYomiTimeLeft {
          return MissingEntry;
        }
        byoYomiTimeLeft := byoYomiTimeLeft[p := byoYomiTimeLeft[p] - 1];
        if byoYomiTimeLeft[p] <= 0 {
          if p !in periodsLeft {
            return MissingEntry;
          }
          periodsLeft := periodsLeft[p := periodsLeft[p] - 1];
          if periodsLeft[p] <= 0 {
            return OutOfTime;
          } else {
            byoYomiTimeLeft := byoYomiTimeLeft[p := settings.byoYomiTime];
          }
        }
      }
      return Counted;
    }

    /** The tracking loop's guard: the clock runs only in an unfinished, timed game with both seats taken, outside scoring. */
    predicate ClockRuns(game: GameState)
      reads this, game
    {
      !game.gameOver && !inScoringPhase && settings.timeControl != "none" && |game.players| == 2
    }

    /** One pass of the tracking loop's clock step: tick only when the clock runs. */
    method RunClock(game: GameState) returns (tick: Option<Tick>)
      requires game.Valid()
      modifies this`timeLeft, this`byoYomiTimeLeft, this`periodsLeft
      modifies game`gameOver, game`gameOverReason, game`resignedPlayer, game`winner, game`finalScore
      ensures game.Valid()
      ensures !old(ClockRuns(game)) ==>
                tick == None && Contents() == old(Contents()) && game.gameOver == old(game.gameOver)
                && game.winner == old(game.winner) && game.gameOverReason == old(game.gameOverReason)
                && game.resignedPlayer == old(game.resignedPlayer) && game.finalScore == old(game.finalScore)
      ensures tick == Some(OutOfTime) ==>
                && game.gameOver && game.gameOverReason == Some("timeout")
                && game.winner == old(game.winner) && game.resignedPlayer == old(game.resignedPlayer)
                && game.finalScore == old(game.finalScore)
      ensures tick != Some(OutOfTime) ==>
                && game.gameOver == old(game.gameOver) && game.gameOverReason == old(game.gameOverReason)
                && game.winner == old(game.winner) && game.resignedPlayer == old(game.resignedPlayer)
                && game.finalScore == old(game.finalScore)
      ensures old(ClockRuns(game)) ==>
                && tick.Some?
                && var mover := FirstWithColour(game.players, game.currentTurn.Value());
                   if mover.None? || mover.value == "" then
                     tick.value == NoMover && Contents() == old(Contents())
                   else
                     (Contents(), tick.value) == Step(old(Contents()), mover.value, settings, InitialTime(settings.timeControl))
    {
      if ClockRuns(game) {
        var t := HandleTimeControls(game);
        tick := Some(t);
      } else {
        tick := None;
      }
    }
  }

  // ---------------------------------------------------------------------
  // Post-game purge

  /** handle_post_game_disconnect_cleanup's test: at least as many disconnect records as seated players. */
  predicate PurgeDue(disconnected: set<string>, seated: set<string>) {
    |disconnected| >= |seated|
  }

  /** When only seated players leave disconnect records, the purge is due exactly when every one of them has left. */
  lemma PurgeWhenAllGone(disconnected: set<string>, seated: set<string>)
    requires disconnected <= seated
    ensures PurgeDue(disconnected, seated) <==> disconnected == seated
  {
    if disconnected != seated {
      assert disconnected < seated;
      SubsetSmaller(disconnected, seated);
    }
  }

  lemma {:induction false} SubsetSmaller(a: set<string>, b: set<string>)
    requires a < b
    ensures |a| < |b|
  {
    var x :| x in b && x !in a;
    assert a <= b - {x};
    assert |b - {x}| == |b| - 1;
    SubsetAtMost(a, b - {x});
  }

  lemma {:induction false} SubsetAtMost(a: set<string>, b: set<string>)
    requires a <= b
    ensures |a| <= |b|
    decreases |b|
  {
    if a != b {
      var x :| x in b && x !in a;
      SubsetAtMost(a, b - {x});
    }
  }

  // ---------------------------------------------------------------------
  // Ending on time with the winner recorded

  /**
   * Ending a game by timeout the way the result is evidently meant to be
   * recorded: end_game with reason "timeout", and the player who did not
   * run out named as winner.
   */
  method EndOnTime(game: GameState, loser: string)
    requires game.Valid()
    modifies game`gameOver, game`gameOverReason, game`resignedPlayer, game`winner, game`finalScore
    ensures game.Valid() && game.gameOver && game.gameOverReason == Some("timeout")
    ensures game.winner == FirstOther(game.players, loser)
    ensures game.winner.Some? ==> game.winner.value != loser
    ensures game.winner.None? <==> forall k :: 0 <= k < |game.players| ==> game.players[k].id == loser
    ensures game.finalScore == old(game.finalScore) && game.resignedPlayer == old(game.resignedPlayer)
  {
    game.EndGame("timeout", Some(loser));
    game.winner := FirstOther(game.players, loser);
  }
}
