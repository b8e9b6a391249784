# Insect catch: the game engine, modelled in Dafny

A model of the game engine inside the main form of the WinForms game
"insect catch" (`Program.cs`). A target insect sits somewhere in the game
panel. The player clicks it before a countdown runs out. A timed level is
passed at 10 points. In endless mode each click grants bonus seconds and can
raise a persisted high score. The model extracts the form's state and its
event handlers from the user interface:

- `catalog.dfy` (module `Catalog`): the three insect kinds and their catalog
  entries (image path, movement interval, endless time bonus); the kind bound
  to each level; the 40/40/20 threshold choice on a draw of
  `random.Next(100)`; and the kind lookup `GetCurrentInsectType`.
- `location.dfy` (module `LocationPicker`): `GetRandomLocation` inside the
  800x600 panel shrunk for the 50x50 picture. It also holds `PickFrom`, the
  specification of the retry loop in `GetUniqueRandomLocation`: a FIFO
  history of 10 points, and an escape on the 100th attempt.
- `records.dfy` (module `RecordStore`): the records file as a list of lines.
  It covers the integer printer and parser, `LoadRecords` and `SaveRecords`
  (both methods with loops, proved against the functions `Load` and
  `SaveLines`), and the round trip between them.
- `session.dfy` (module `Session`): class `Game` holds the form's fields
  `score`, `timeLeft`, `level`, `endlessMode`, `endlessRecord`,
  `completedLevels` and `previousLocations`. It also holds the shown kind,
  the movement timer's interval, the picture's position, and `playing`,
  which stands for "the two timers exist". Each event handler is a method
  whose postcondition gives the new state. `Valid()` is the invariant the
  handlers keep.
- `wrappers.dfy` (module `Wrappers`): `Option`.

Timers, randomness and the file system become explicit inputs and outputs.
A tick is a method call. Every random draw is a parameter: one `Draw` per
location attempt, and an integer in [0,100) for a kind. A load receives the
file's lines, or `None` when the file is missing or unreadable. A handler
that saves returns the lines it writes.

Behaviour of the code that the model keeps as written:

- The endless click bonus is always 1 second. `GetCurrentInsectType` looks
  for a kind name in `insectPicture.ImageLocation`. `SetInsectImage` sets
  only `Image`, so that property stays null and the lookup falls back to the
  cockroach. The shown kind is therefore tracked in its own field,
  `currentKind`, which sets the movement interval. The click bonus goes
  through the same fallback as the code (`Session.ClickBonus`,
  `Session.ClickBonusIgnoresShownKind`).
- Starting a level or endless mode does not move the target. It stays where
  the previous session left it, or at (20, 70) on the first session, until
  the first movement tick, or in a level the first click (an endless click
  redraws the kind but does not move the target).
- The endless high score is raised and saved on the click that beats it. It
  is not evaluated again when the countdown ends.
- The records file may hold a negative record. It loads as written.

## Model

| member | source | states |
|---|---|---|
| `Catalog.TypeOf` | Program.cs:55-63 | every catalog entry has a positive movement interval and a positive time bonus; its image path is `img/<key>.png` |
| `Catalog.SpeedsOrdered` | Program.cs:59-61 | fly 600 ms < mosquito 800 ms < cockroach 1600 ms; bonuses 1 < 2 < 3 |
| `Catalog.KindForLevel` | Program.cs:390 | level 1 gives the cockroach, level 2 the mosquito, every other level the fly (each an if-and-only-if) |
| `Catalog.KindForDraw` | Program.cs:463-468 | a draw below 40 gives the cockroach, 40 to 79 the mosquito, 80 to 99 the fly (each an if-and-only-if) |
| `Catalog.DrawSplit` | Program.cs:463-468 | of the 100 equally likely draws exactly 40, 40 and 20 select the three kinds |
| `Catalog.FirstKeyIn` | Program.cs:562-568 | the key found is a catalog key contained in the image location; none is found exactly when no key is contained |
| `Catalog.GetCurrentInsectType` | Program.cs:560-570 | without an image or without an image location the lookup yields the cockroach |
| `Catalog.LookupRecoversKindFromPath` | Program.cs:560-570 | had the image location been the catalog path of a kind, the lookup would return that kind |
| `Session.ClickBonusIgnoresShownKind` | Program.cs:528-529 | the endless click bonus is the cockroach's 1 second, below the bonus of a shown mosquito or fly |
| `LocationPicker.RandomNext` | Program.cs:581-582 | `random.Next(min, max)` lies in [min, max) |
| `LocationPicker.GetRandomLocation` | Program.cs:572-584 | the point lies in [20,730) x [70,530); before the picture exists it is (20, 70) |
| `LocationPicker.EveryPointReachable` | Program.cs:577-583 | every point of the play area is returned for some draw |
| `LocationPicker.RememberIsFifo` | Program.cs:445-448 | the history stays at most 10 long; a point is appended, and the oldest entry is evicted when it was full |
| `LocationPicker.PickFresh` | Program.cs:432-450 | when one of the first 99 candidates is new, the first new one is returned; it was absent from the history and is recorded as its newest entry |
| `LocationPicker.PickEscape` | Program.cs:437-441 | when the first 99 candidates are all in the history, the 100th candidate is returned and the history is cleared without recording it |
| `LocationPicker.PickKeepsHistoryGood` | Program.cs:426-451 | the history stays at most 10 long, duplicate-free and inside the play area; the point returned is inside the play area |
| `RecordStore.ParsePrintRoundTrip` | Program.cs:74-78 | parsing the printed form of any integer gives it back |
| `RecordStore.PrintInjective` | Program.cs:93-95 | distinct integers are written as distinct lines |
| `RecordStore.LoadRecords` | Program.cs:65-86 | the loop computes `Load` of the file: defaults if missing or empty, else line 0 as record if parsable, plus every parsable later line as a level |
| `RecordStore.ParsedLevelsExactly` | Program.cs:77-79 | a level is collected exactly when some line holding it parses |
| `RecordStore.LoadIsTotal` | Program.cs:67-85 | a missing or empty file gives (0, {}); an unparsable line 0 leaves the record at 0; the levels are exactly the parsable lines 1..N |
| `RecordStore.LoadSaveRoundTrip` | Program.cs:65-102 | loading saved lines gives back the record and the level set, in any line order and with any repetition |
| `RecordStore.SaveRecords` | Program.cs:88-102 | the record's decimal text, then the decimal text of each completed level exactly once, in some enumeration order (`SaveLines`); the lines load back as the records saved |
| `RecordStore.ResetThenLoad` | Program.cs:506-510 | the file written by a reset loads as the defaults |
| `Session.Game.constructor` | Program.cs:44-53 | the records are those loaded from the file; the game starts in the menu with score 0, level 1 and the picture at (20, 70) |
| `Session.Game.StartLevel` | Program.cs:376-400 | the chosen level plays with score 0, 20 s, an empty history and the level's kind, moving at that kind's interval; records and position unchanged |
| `Session.Game.StartEndless` | Program.cs:402-424 | endless play starts with score 0, 15 s and an empty history; the kind is drawn and the interval is re-armed to its speed; records and position unchanged |
| `Session.Game.RandomizeInsect` | Program.cs:461-472 | the kind is the one selected by the draw, and the movement interval becomes that kind's speed |
| `Session.Game.GetUniqueRandomLocation` | Program.cs:426-451 | the point returned and the new history are those given by `PickFrom` for the old history and the draws |
| `Session.Game.MoveInsect` | Program.cs:453-459 | the target moves as `PickFrom` says; in endless mode the kind is redrawn, in a level it is kept |
| `Session.Game.CountdownTick` | Program.cs:586-612 | time drops by exactly 1; the session stays on exactly while time is positive; nothing else changes, so a lost level records nothing |
| `Session.Game.SwitchToMenu` | Program.cs:322-330 | the timers stop (`playing` false) and no other field changes |
| `Session.Game.InsectClick` | Program.cs:520-558 | the score rises by exactly 1. Endless: bonus time, record = max(old, score), saved exactly when beaten, new kind, same position. Level at 10: level added, saved exactly when new, session ends. Below 10: same kind moves. Every save reloads as the records in memory |
| `Session.Game.RewardEndlessClick` | Program.cs:526-540 | bonus time from the lookup; record raised and saved exactly when the score beats it; kind redrawn and interval re-armed |
| `Session.Game.PassLevel` | Program.cs:541-553 | the level joins the completed set, a save happens exactly when it was absent, and the session ends |
| `Session.Game.ResetRecords` | Program.cs:506-512 | both records are cleared and the written file loads as the defaults |
| `Session.ClickThroughLevel` | Program.cs:541-553 | clicking every target ends a level after exactly 10 clicks, with the level recorded and the endless record untouched |
| `Session.RunOutTheClock` | Program.cs:586-612 | without clicks a session ends after exactly as many ticks as seconds were left, with score and records unchanged |

## Left out

- Form construction and layout (`InitializeComponent`, `CreateMenu`, `CreateGamePanel`, `UpdateMenuButtons`), label texts and button colours: presentation only.
- Images and cursors (`LoadResources`, `CreateCursor`, the `Image.FromFile` call in `SetInsectImage` and its failure message): foreign drawing library. Only the chosen kind is modelled. The lookup always sees an image (`Session.HasImage`); without one it also yields the cockroach.
- Audio (`PlaySound`, background music, disposal in `OnFormClosing`) and the text of every `MessageBox`. Reset is modelled as its confirmed branch only. The timing of the modal boxes is not modelled; see the `CountdownTick`, `InsectClick` and `RewardEndlessClick` lines below.
- File I/O: the model receives the file's lines or nothing, and returns the lines a save writes. A failed write shows a message; apart from the timer events that message box lets through (see `RewardEndlessClick` below) it changes no state.
- Timers: a tick is a method call whose precondition is a running session. The countdown timer's fixed 1000 ms interval is not a field.
- `System.Random`: draws are parameters. `random.Next(min, max)` is modelled as `min + draw % (max - min)`. The 40/40/20 split is proved over the 100 draws; convergence of real draws is not.
- `LocationPicker.GetRandomLocation`: the panel and picture sizes are the fixed constants of the form (800x600, 50x50), not parameters.
- `RecordStore.TryParseInt`: whitespace, culture-specific signs and the rejection of values outside 32 bits are not modelled; integers are unbounded.
- `Session.Game.InsectClick`: the score is an unbounded integer; the 32-bit wrap-around after 2^31 clicks is not modelled. The same holds for `timeLeft`.
- `Session.Game.StartLevel`: like the menu, it expects no running session (its buttons are hidden while playing); starting over a running session is not modelled.
- `Session.Game.StartEndless`: for the same reason it expects no running session (its button is on the hidden menu); starting over a running session is not modelled.
- `Session.Game.CountdownTick`: when time runs out the source stops only the countdown timer and shows the result box; the session is switched off after the player dismisses it. Until then the movement timer keeps firing `MoveInsect`, so the target keeps moving, the history grows and in endless mode the kind is redrawn. The model ends the session at once and leaves location, history and kind unchanged, so where the next session's target starts may differ from the source when the box stays open longer than one movement interval.
- `Session.Game.InsectClick`: the same holds on a passed level. The level is recorded and saved, then the congratulation box is shown with the movement timer still running; the model switches to the menu at once and does not capture the moves that happen while the box is open.
- `Session.Game.RewardEndlessClick`: when saving the new record fails, the error box likewise lets both timers fire. Moves, and even the end of the session, can happen before the handler resumes and calls `RandomizeInsect`, which then dereferences the movement timer field that `StopAllTimers` has already set to null. The model treats the save as instantaneous and does not capture these interleavings or that fault.
- `Session.Game.ResetRecords`: its button sits in the menu, so it requires that no session is running.
- `Program.Main` and the application bootstrap: host plumbing.
