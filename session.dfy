/**
 * The game engine of the main form: the fields it updates in place and the
 * event handlers that update them. `playing` stands for "both timers exist"
 * (they are created together when a session starts and disposed together by
 * `StopAllTimers`); the timers themselves are not modelled, a tick is a call.
 * Random draws are parameters, the records file is the list of lines a load
 * receives or a save returns. Labels, images, sounds and dialogs are left out.
 */
module Session {
  import opened Wrappers
  import opened Catalog
  import opened LocationPicker
  import opened RecordStore

  const LevelTime := 20
  const EndlessTime := 15
  const LevelPassScore := 10
  /** The endless movement timer's interval before the first randomize re-arms it. */
  const EndlessStartInterval := 1000
  /** The bonus lookup succeeds with an image shown (asset failures are not modelled). */
  const HasImage := true
  /**
   * `insectPicture.ImageLocation`: `SetInsectImage` assigns `Image` only, so
   * this stays null and `GetCurrentInsectType` always falls back to the
   * cockroach, whatever kind is shown.
   */
  const ImageLocation: Option<string> := None

  /** The time bonus an endless click grants, as the source computes it. */
  function ClickBonus(): int
  {
    TypeOf(GetCurrentInsectType(HasImage, ImageLocation)).timeBonus
  }

  /**
   * An endless click always grants 1 second, the cockroach's bonus, even
   * when a mosquito (bonus 2) or a fly (bonus 3) is shown.
   */
  lemma ClickBonusIgnoresShownKind(shown: InsectKind)
    ensures ClickBonus() == TypeOf(Cockroach).timeBonus == 1
    ensures shown != Cockroach ==> ClickBonus() < TypeOf(shown).timeBonus
  {
  }

  class Game {
    var score: int
    var timeLeft: int
    var level: int
    var endlessMode: bool
    var endlessRecord: int
    var completedLevels: set<int>
    var previousLocations: seq<Point>
    /** The timers are running: a session is in progress. */
    var playing: bool
    /** The kind last passed to `SetInsectImage`. */
    var currentKind: InsectKind
    /** `insectTimer.Interval`. */
    var movementInterval: int
    /** `insectPicture.Location`. */
    var location: Point

    ghost predicate Valid()
      reads this
    {
      && 0 <= score
      && GoodHistory(previousLocations)
      && InPlayArea(location)
      && (playing ==> 0 < timeLeft && movementInterval == TypeOf(currentKind).speed)
      && (playing && !endlessMode ==> currentKind == KindForLevel(level) && score < LevelPassScore)
      && (playing && endlessMode && 0 < score ==> score <= endlessRecord)
    }

    /** The two record fields, as the records file holds them. */
    function SavedState(): Records
      reads this
    {
      Records(endlessRecord, completedLevels)
    }

    /**
     * The form's construction: records loaded from the file, the picture
     * placed before it exists (hence the fallback point), then the menu.
     */
    constructor (recordsFile: Option<seq<string>>)
      ensures Valid() && !playing
      ensures score == 0 && level == 1 && !endlessMode && previousLocations == []
      ensures location == FallbackLocation
      ensures SavedState() == Load(recordsFile)
    {
      var loaded := LoadRecords(recordsFile);
      score := 0;
      timeLeft := 0;
      level := 1;
      endlessMode := false;
      endlessRecord := loaded.endlessRecord;
      completedLevels := loaded.completedLevels;
      previousLocations := [];
      currentKind := Cockroach;
      movementInterval := 0;
      location := GetRandomLocation(false, Draw(0, 0));
      playing := false;
    }

    /** `LevelButton_Click` then `SwitchToGame`: a timed level with its fixed kind. */
    method StartLevel(selected: int)
      requires Valid() && !playing
      modifies this
      ensures Valid() && playing
      ensures level == selected && !endlessMode
      ensures score == 0 && timeLeft == LevelTime && previousLocations == []
      ensures currentKind == KindForLevel(selected)
      ensures movementInterval == TypeOf(currentKind).speed
      ensures location == old(location)
      ensures SavedState() == old(SavedState())
    {
      level := selected;
      score := 0;
      endlessMode := false;
      previousLocations := [];
      timeLeft := LevelTime;
      currentKind := KindForLevel(level);
      playing := true;
      movementInterval := TypeOf(currentKind).speed;
    }

    /** `StartEndlessMode`: 15 seconds, then an immediate randomize with `kindDraw`. */
    method StartEndless(kindDraw: int)
      requires Valid() && !playing
      requires 0 <= kindDraw < 100
      modifies this
      ensures Valid() && playing
      ensures endlessMode && level == old(level)
      ensures score == 0 && timeLeft == EndlessTime && previousLocations == []
      ensures currentKind == KindForDraw(kindDraw)
      ensures movementInterval == TypeOf(currentKind).speed
      ensures location == old(location)
      ensures SavedState() == old(SavedState())
    {
      score := 0;
      endlessMode := true;
      timeLeft := EndlessTime;
      previousLocations := [];
      playing := true;
      movementInterval := EndlessStartInterval;
      RandomizeInsect(kindDraw);
    }

    /** `RandomizeInsect`: picks the kind for a draw of `random.Next(100)` and re-arms the movement timer. */
    method RandomizeInsect(kindDraw: int)
      requires playing
      requires 0 <= kindDraw < 100
      modifies this`currentKind, this`movementInterval
      ensures currentKind == KindForDraw(kindDraw)
      ensures movementInterval == TypeOf(currentKind).speed
    {
      currentKind := KindForDraw(kindDraw);
      movementInterval := TypeOf(currentKind).speed;
    }

    /**
     * `GetUniqueRandomLocation`: draws candidates until one is not in the
     * history; the 100th attempt clears the history and is returned as is.
     */
    method GetUniqueRandomLocation(draws: seq<Draw>) returns (newLocation: Point)
      requires MaxAttempts <= |draws|
      modifies this`previousLocations
      ensures Pick(newLocation, previousLocations) == PickFrom(old(previousLocations), draws, 0)
    {
      var attempts := 0;
      while true
        invariant 0 <= attempts < MaxAttempts
        invariant previousLocations == old(previousLocations)
        invariant PickFrom(previousLocations, draws, attempts) == PickFrom(old(previousLocations), draws, 0)
        decreases MaxAttempts - attempts
      {
        newLocation := GetRandomLocation(true, draws[attempts]);
        attempts := attempts + 1;
        if attempts >= MaxAttempts {
          previousLocations := [];
          return;
        }
        if newLocation !in previousLocations {
          break;
        }
      }
      previousLocations := previousLocations + [newLocation];
      if |previousLocations| > HistoryCapacity {
        previousLocations := previousLocations[1..];
      }
    }

    /** `MoveInsect`: a new position; in endless mode also a new kind. */
    method MoveInsect(draws: seq<Draw>, kindDraw: int)
      requires Valid() && playing
      requires MaxAttempts <= |draws| && 0 <= kindDraw < 100
      modifies this`location, this`previousLocations, this`currentKind, this`movementInterval
      ensures Valid() && playing
      ensures Pick(location, previousLocations) == PickFrom(old(previousLocations), draws, 0)
      ensures endlessMode ==> currentKind == KindForDraw(kindDraw)
      ensures !endlessMode ==> currentKind == old(currentKind)
      ensures movementInterval == TypeOf(currentKind).speed
    {
      PickKeepsHistoryGood(previousLocations, draws, 0);
      location := GetUniqueRandomLocation(draws);
      if endlessMode {
        RandomizeInsect(kindDraw);
      }
    }

    /**
     * `GameTimer_Tick` and `EndlessTimer_Tick` (identical apart from the
     * message shown): one second less; at zero or below the session ends and
     * the timers stop. Nothing is recorded.
     */
    method CountdownTick()
      requires Valid() && playing
      modifies this`timeLeft, this`playing
      ensures Valid()
      ensures timeLeft == old(timeLeft) - 1
      ensures playing <==> 0 < timeLeft
    {
      timeLeft := timeLeft - 1;
      if timeLeft <= 0 {
        SwitchToMenu();
      }
    }

    /** `SwitchToMenu` (also `BackButton_Click`): the timers stop, nothing else changes. */
    method SwitchToMenu()
      modifies this`playing
      ensures !playing
    {
      playing := false;
    }

    /**
     * `InsectPicture_Click`. `written` holds the lines saved to the records
     * file, if a save happened.
     */
    method InsectClick(draws: seq<Draw>, kindDraw: int) returns (written: Option<seq<string>>)
      requires Valid() && playing
      requires MaxAttempts <= |draws| && 0 <= kindDraw < 100
      modifies this`score, this`timeLeft, this`endlessRecord, this`completedLevels, this`playing
      modifies this`location, this`previousLocations, this`currentKind, this`movementInterval
      ensures Valid()
      ensures score == old(score) + 1
      ensures written.Some? ==> Load(Some(written.value)) == SavedState()
      // endless mode: bonus time, record kept up, new kind, same position
      ensures old(endlessMode) ==>
        && playing
        && timeLeft == old(timeLeft) + ClickBonus()
        && endlessRecord == (if old(endlessRecord) < score then score else old(endlessRecord))
        && completedLevels == old(completedLevels)
        && (written.Some? <==> old(endlessRecord) < score)
        && currentKind == KindForDraw(kindDraw)
        && movementInterval == TypeOf(currentKind).speed
        && location == old(location) && previousLocations == old(previousLocations)
      // level passed: the level is recorded, saved if new, and the session ends
      ensures !old(endlessMode) && LevelPassScore <= score ==>
        && !playing
        && completedLevels == old(completedLevels) + {level}
        && endlessRecord == old(endlessRecord)
        && (written.Some? <==> level !in old(completedLevels))
        && timeLeft == old(timeLeft)
        && currentKind == old(currentKind) && movementInterval == old(movementInterval)
        && location == old(location) && previousLocations == old(previousLocations)
      // level not passed yet: the same kind moves
      ensures !old(endlessMode) && score < LevelPassScore ==>
        && playing
        && written.None?
        && SavedState() == old(SavedState())
        && timeLeft == old(timeLeft)
        && currentKind == old(currentKind) && movementInterval == old(movementInterval)
        && Pick(location, previousLocations) == PickFrom(old(previousLocations), draws, 0)
    {
      score := score + 1;
      if endlessMode {
        written := RewardEndlessClick(kindDraw);
      } else if score >= LevelPassScore {
        written := PassLevel();
      } else {
        written := None;
        MoveInsect(draws, kindDraw);
      }
    }

    /**
     * The endless branch of `InsectPicture_Click`, once the score is up:
     * bonus time for the kind the lookup reports, a record saved when beaten,
     * and a new kind.
     */
    method RewardEndlessClick(kindDraw: int) returns (written: Option<seq<string>>)
      requires playing && 0 <= kindDraw < 100
      modifies this`timeLeft, this`endlessRecord, this`currentKind, this`movementInterval
      ensures timeLeft == old(timeLeft) + ClickBonus()
      ensures endlessRecord == (if old(endlessRecord) < score then score else old(endlessRecord))
      ensures written.Some? <==> old(endlessRecord) < score
      ensures written.Some? ==> Load(Some(written.value)) == SavedState()
      ensures currentKind == KindForDraw(kindDraw)
      ensures movementInterval == TypeOf(currentKind).speed
    {
      written := None;
      var shown := GetCurrentInsectType(HasImage, ImageLocation);
      timeLeft := timeLeft + TypeOf(shown).timeBonus;
      if score > endlessRecord {
        endlessRecord := score;
        var lines := SaveRecords(SavedState());
        written := Some(lines);
      }
      RandomizeInsect(kindDraw);
    }

    /**
     * The level-passed branch of `InsectPicture_Click`: the level is added
     * and saved only when new, then the session ends.
     */
    method PassLevel() returns (written: Option<seq<string>>)
      modifies this`completedLevels, this`playing
      ensures !playing
      ensures completedLevels == old(completedLevels) + {level}
      ensures written.Some? <==> level !in old(completedLevels)
      ensures written.Some? ==> Load(Some(written.value)) == SavedState()
    {
      written := None;
      if level !in completedLevels {
        completedLevels := completedLevels + {level};
        var lines := SaveRecords(SavedState());
        written := Some(lines);
      }
      SwitchToMenu();
    }

    /** The confirmed branch of `ResetButton_Click`: both records cleared and saved. */
    method ResetRecords() returns (written: seq<string>)
      requires Valid() && !playing
      modifies this`endlessRecord, this`completedLevels
      ensures Valid()
      ensures SavedState() == Default
      ensures Load(Some(written)) == Default
    {
      endlessRecord := 0;
      completedLevels := {};
      written := SaveRecords(SavedState());
    }
  }

  /**
   * A level session in which every target is hit: after exactly ten clicks
   * the level is recorded and the session is over.
   */
  method ClickThroughLevel(game: Game, selected: int, draws: seq<Draw>) returns (clicks: nat)
    requires game.Valid() && !game.playing
    requires MaxAttempts <= |draws|
    modifies game
    ensures game.Valid() && !game.playing
    ensures clicks == LevelPassScore && game.score == LevelPassScore
    ensures game.completedLevels == old(game.completedLevels) + {selected}
    ensures game.endlessRecord == old(game.endlessRecord)
  {
    game.StartLevel(selected);
    clicks := 0;
    while game.playing
      invariant game.Valid() && game.level == selected && !game.endlessMode
      invariant game.score == clicks
      invariant game.playing ==> game.completedLevels == old(game.completedLevels)
      invariant !game.playing ==> clicks == LevelPassScore
      invariant !game.playing ==> game.completedLevels == old(game.completedLevels) + {selected}
      invariant game.endlessRecord == old(game.endlessRecord)
      decreases LevelPassScore - game.score
    {
      var _ := game.InsectClick(draws, 0);
      clicks := clicks + 1;
    }
  }

  /**
   * A session in which nothing is hit: it ends after exactly as many
   * countdown ticks as there were seconds left, and records nothing.
   */
  method RunOutTheClock(game: Game) returns (ticks: nat)
    requires game.Valid() && game.playing
    modifies game
    ensures game.Valid() && !game.playing
    ensures ticks == old(game.timeLeft) && game.timeLeft == 0
    ensures game.SavedState() == old(game.SavedState()) && game.score == old(game.score)
  {
    ticks := 0;
    while game.playing
      invariant game.Valid()
      invariant game.timeLeft == old(game.timeLeft) - ticks
      invariant !game.playing ==> game.timeLeft == 0
      invariant game.SavedState() == old(game.SavedState()) && game.score == old(game.score)
      decreases game.timeLeft
    {
      game.CountdownTick();
      ticks := ticks + 1;
    }
  }
}
