# Mastermind: server registry, scoring, game state, clock and settings input

A Dafny model of the sequential core of a Kotlin Mastermind game.

The model covers:

- **The two-player game server**: the pool of four-digit game codes, the registry of game sessions and the connections taking part in them. It covers what each request (`createGame`, `joinGame`, `submitResult`, an unknown action, the end of the stream) does to that state and which messages each connection receives.
- **The scorer**: `Checker.checkGuess`, which reports how many symbols of a guess are in the right place and how many more are present elsewhere.
- **The single-player game**: the attempt counter, the solved flag and the guessing loop.
- **The game clock**: start, pause, resume and the time played, in 64-bit `Long` arithmetic.
- **The settings object**: its constructor checks, the application's bounds and the default settings.
- **The settings dialog**: the colour-list text field and its validator.
- **The bounded number input**: the handlers of the spin box.

## Layout

| file | module | models |
|---|---|---|
| `sequences.dfy` | `Sequences` | sequences without repetitions, and `toSet()` |
| `numerals.dfy` | `Numerals` | `Int.toString()` and `String.toIntOrNull()` |
| `words.dfy` | `Words` | `uppercase()`, `split(" ")`, `trim()`, `joinToString(" ")` |
| `config.dfy` | `Config` | `Settings.kt` and the bounds and defaults of `App.kt` |
| `checker.dfy` | `Checker` | `Checker.kt` and `Feedback.kt` |
| `games.dfy` | `Games` | `Game.kt` |
| `timing.dfy` | `Timing` | `TimeManager.kt` |
| `settings_view.dfy` | `SettingsView` | the colour-list field of `SettingsView.kt` |
| `spinbox.dfy` | `SpinBoxes` | `SpinBox.kt` |
| `server.dfy` | `Server` | `GameServer.kt` |

### Server

Sockets are connection numbers. A `Network` object records two things:

- what has been written to each connection (its outbox);
- which connections are closed.

A write to a closed connection fails. The source code reports such a failure by throwing, and the model returns `false` (`Deliver`, `Network.SendAll`). A failed write aborts the request and leads to the handler's `finally` block, which calls `disconnectClient` for the handling connection.

Each `synchronized` block is one method call. Kotlin's insertion-ordered `mutableMapOf` is modelled as a sequence of keys plus a map. The `players` map is a sequence of connections, and `results` is a map plus `resultOrder`.

The server invariant `GameServer.Valid()` has three parts:

- The pool holds distinct codes in 1000..9999.
- Every game key is the decimal text of a code that is not in the pool. This gives code uniqueness: a new game never reuses the key of a live game.
- Every session is valid and distinct, and every open connection with a game code is a player of that game.

### Server behaviour worth knowing

The model follows the code in each of these cases:

- **`disconnectClient` never delivers "opponent disconnected".** It calls `closeSession` first, which closes every player's socket (GameServer.kt:126). Only afterwards does it try to write the note to the other player (GameServer.kt:131-141). That write fails and the exception is swallowed, so the remaining player never receives the note; their socket is simply closed. `GameServer.NotifyOpponents` and `GameServer.DisconnectClient` state that the outboxes do not change.
- **The other player's game code is left in place.** `disconnectClient` removes only the leaving connection's entry in `clients`.
- **An empty pool ends the connection.** `nextCodes.first()` throws, and the handler disconnects, instead of reporting a capacity error.
- **A malformed request ends the connection.** This covers a request that is not a map and a `result` that is not a `GameResult`. Each ends with `disconnectClient`, not with an error reply.

## Model

| member | source | states |
|---|---|---|
| `Numerals.ParseInt` | src/main/kotlin/SpinBox.kt:53-56 | `toIntOrNull` gives only values of a 32-bit `Int`, and only for text containing a digit |
| `Numerals.ParseDecimalText` | src/main/kotlin/SpinBox.kt:38 | the text `toString()` writes for an `Int` reads back as that `Int` |
| `Numerals.DecimalTextInjective` | src/main/kotlin/GameServer.kt:152 | different codes have different texts, so game keys identify codes |
| `Numerals.FourDigitText` | src/main/kotlin/GameServer.kt:25 | every code of 1000..9999 is written with exactly four digits |
| `Words.Uppercase` | src/main/kotlin/SettingsView.kt:77 | upper-casing keeps the length, maps each character to its capital, and leaves no lower-case letter |
| `Words.JoinSplit` | src/main/kotlin/SettingsView.kt:77 | joining the pieces of a split with the separator gives back the text |
| `Words.SplitJoin` | src/main/kotlin/SettingsView.kt:99 | splitting pieces joined with a separator they do not contain gives back the pieces |
| `Words.SplitEmptyPiece` | src/main/kotlin/SettingsView.kt:77 | two separators in a row produce an empty piece |
| `Words.UppercaseIdempotent` | src/main/kotlin/SettingsView.kt:77 | upper-casing twice is upper-casing once |
| `Sequences.DistinctIffElementsSize` | src/main/kotlin/Settings.kt:14 | `toSet().size == size` holds exactly when no element repeats |
| `Config.MakeSettings` | src/main/kotlin/Settings.kt:2-16 | the constructor succeeds exactly when length is 3..6, attempts 3..20, colours 3..8 and distinct; otherwise the message of the first failed check, in order; `numberOfColors` is the list length |
| `Config.ValidColorsDistinct` | src/main/kotlin/Settings.kt:5-16 | the four checks, with uniqueness read as "no colour listed twice" |
| `Config.DefaultSettingsValid` | src/main/kotlin/App.kt:90 | `DEFAULT_SETTINGS` (4, 10, A to F) passes every check |
| `Checker.TallyPositions` | src/main/kotlin/Checker.kt:19-26 | the first loop counts exactly the agreeing positions and tallies, per symbol, the unmatched symbols of each side |
| `Checker.SumMinimums` | src/main/kotlin/Checker.kt:29-33 | the second loop adds up to the size of the intersection of the two tallied multisets |
| `Checker.CheckGuess` | src/main/kotlin/Checker.kt:4-36 | the feedback is exactly the specified score (`Score`): exact matches, and the multiset intersection of the unmatched symbols |
| `Checker.ExactMatchesCountsPositions` | src/main/kotlin/Checker.kt:19-22 | `correct` is the number of positions where guess and secret agree |
| `Checker.AllExactIffAgree` | src/main/kotlin/Checker.kt:19-22 | every position is an exact match exactly when guess and secret agree everywhere |
| `Checker.LeftoversSize` | src/main/kotlin/Checker.kt:19-25 | each unmatched position adds one symbol to each tally and each match adds to `correct` |
| `Checker.IntersectionBound` | src/main/kotlin/Checker.kt:31 | a per-symbol minimum never exceeds either side |
| `Checker.ScoreBound` | src/main/kotlin/Checker.kt:19-35 | both counts are non-negative and `correct + misplaced` is at most the guess length |
| `Checker.GuessSplit` | src/main/kotlin/Checker.kt:19-25 | the guess symbols are the matched ones plus the unmatched tally |
| `Checker.SecretSplit` | src/main/kotlin/Checker.kt:19-25 | the secret symbols are the matched ones plus the unmatched tally |
| `Checker.TotalMatches` | src/main/kotlin/Checker.kt:29-35 | for equal lengths, `correct + misplaced` is the number of symbols the two have in common |
| `Checker.SolvedIffSecret` | src/main/kotlin/Checker.kt:19-22 | all positions correct exactly when the guess is the secret |
| `Checker.ScoreOfSecret` | src/test/kotlin/CheckerTests.kt:7-18 | guessing the secret gives (length, 0) |
| `Checker.NoExactGuessLeftovers` | src/main/kotlin/Checker.kt:22-24 | with no exact match the guess tally is the whole guess |
| `Checker.NoExactSecretLeftovers` | src/main/kotlin/Checker.kt:22-23 | with no exact match the secret tally is the whole secret |
| `Checker.ScoreOfDerangement` | src/test/kotlin/CheckerTests.kt:21-43 | a rearrangement of the secret with no symbol in place gives (0, length) |
| `Checker.AllMisplacedFour` | src/test/kotlin/CheckerTests.kt:31-34 | ABCD against BCDA gives (0, 4) |
| `Checker.AllMisplacedFive` | src/test/kotlin/CheckerTests.kt:35-38 | ABCDA against BCAAD gives (0, 5) |
| `Checker.AllMisplacedSix` | src/test/kotlin/CheckerTests.kt:39-42 | ABCDAB against BCBADA gives (0, 6) |
| `Checker.MixedExampleFour` | src/test/kotlin/CheckerTests.kt:56-59 | ABCD against BCAD gives (1, 3) |
| `Checker.MixedExampleFive` | src/test/kotlin/CheckerTests.kt:60-63 | BBCDD against ABBCD gives (2, 2) |
| `Checker.MixedExampleSix` | src/test/kotlin/CheckerTests.kt:64-67 | ABBDAB against BADBAC gives (1, 4) |
| `Games.SolvesIffSecret` | src/main/kotlin/Game.kt:12 | `correct == sequenceLength` holds exactly when the guess is the secret |
| `Games.ScoreAllAt` | src/main/kotlin/Game.kt:33-36 | the k-th feedback of the loop is the score of the k-th guess |
| `Games.Game.constructor` | src/main/kotlin/Game.kt:2-8 | a new game keeps the settings and a secret of `sequenceLength` configured colours, with no attempts and not solved |
| `Games.Game.CheckGuess` | src/main/kotlin/Game.kt:10-15 | returns the checker's feedback, counts exactly one attempt, and sets the solved flag from this guess alone (solved exactly when it is the secret) |
| `Games.Game.IsGameOver` | src/main/kotlin/Game.kt:17-19 | a solved game is over; a game that is not over is unsolved and has attempts left |
| `Games.Game.GetSecretCode` | src/main/kotlin/Game.kt:21-23 | the secret has `sequenceLength` symbols, each a configured colour |
| `Games.Game.Play` | src/main/kotlin/Game.kt:25-44 | guesses are checked in order until the game is over; each feedback is its guess's score; no earlier guess was the secret; attempts never pass the maximum |
| `Timing.Wrap` | src/main/kotlin/TimeManager.kt:23 | `Long` wrap-around lands in range and leaves a `Long` unchanged |
| `Timing.Resumed` | src/main/kotlin/TimeManager.kt:22-25 | a missing start stays missing, and a resumed start is a `Long` |
| `Timing.PauseExcluded` | src/main/kotlin/TimeManager.kt:22-31 | after a pause and a resume, the clock reads the time before the pause plus the time since the resume, in `Long` arithmetic |
| `Timing.PauseExcludedExact` | src/test/kotlin/TimeManagerTests.kt:33-43 | without overflow, the paused time is exactly excluded |
| `Timing.ResumeWithoutPause` | src/main/kotlin/TimeManager.kt:23 | resuming without a pause counts the pause from time 0 |
| `Timing.TimeManager.constructor` | src/main/kotlin/TimeManager.kt:9-12 | no start, no pause, both readings zero |
| `Timing.TimeManager.StartTimer` | src/main/kotlin/TimeManager.kt:14-16 | the start becomes now; nothing else changes |
| `Timing.TimeManager.PauseTimer` | src/main/kotlin/TimeManager.kt:18-20 | the pause becomes now; nothing else changes |
| `Timing.TimeManager.ResumeTimer` | src/main/kotlin/TimeManager.kt:22-25 | the start moves by the pause, and the pause is cleared |
| `Timing.TimeManager.UpdateTimer` | src/main/kotlin/TimeManager.kt:27-31 | the reading is now minus the start when started, and unchanged otherwise |
| `Timing.TimeManager.SetTimer` | src/main/kotlin/TimeManager.kt:35-37 | the reading becomes the recorded game length |
| `Timing.TimeManager.SetGameEndedTime` | src/main/kotlin/TimeManager.kt:40-42 | the game length becomes the reading |
| `Timing.TimeManager.Reset` | src/main/kotlin/TimeManager.kt:44-49 | no start, no pause, both readings zero |
| `Timing.TimeManager.ResetAndStart` | src/main/kotlin/TimeManager.kt:51-54 | a reset clock started now |
| `Timing.PauseResumeScenario` | src/test/kotlin/TimeManagerTests.kt:18-43 | start 0, pause 2000, resume 5000 gives start 3000; the clock reads 2000 at 5000 and 3000 at 6000 |
| `Timing.EndedTimeScenario` | src/main/kotlin/TimeManager.kt:33-42 | recording the game length and showing it leaves the reading as it was |
| `SettingsView.ValidateIffDistinctTokens` | src/main/kotlin/SettingsView.kt:31-36 | the validator accepts exactly 3 to 8 distinct tokens of capital letters |
| `SettingsView.ValidateColorsList` | src/main/kotlin/SettingsView.kt:31-36 | an accepted list repeats no colour |
| `SettingsView.AcceptedListMakesSettings` | src/main/kotlin/SettingsView.kt:31-36 | every accepted list passes the colour checks of `Settings` |
| `SettingsView.TrimAll` | src/main/kotlin/SettingsView.kt:77 | each piece is trimmed, and the count is kept |
| `SettingsView.ColorsInputIgnoresCase` | src/main/kotlin/SettingsView.kt:77 | typed text and its capitals give the same list |
| `SettingsView.ColorsInput` | src/main/kotlin/SettingsView.kt:77 | the text always gives at least one name; empty text gives one empty name |
| `SettingsView.DoubleSpaceRejected` | src/main/kotlin/SettingsView.kt:77-78 | text with two spaces in a row is rejected |
| `SettingsView.JoinedListReadsBack` | src/main/kotlin/SettingsView.kt:27 | the list shown in the field reads back as the same list |
| `SettingsView.LowercaseReadsAsCapitals` | src/main/kotlin/SettingsView.kt:77 | "a b c" reads as A, B, C |
| `SettingsView.LowercaseAccepted` | src/main/kotlin/SettingsView.kt:77-78 | "a b c" is accepted |
| `SettingsView.ColorsField.constructor` | src/main/kotlin/SettingsView.kt:27-29 | the field shows the current list joined with spaces, with no error |
| `SettingsView.ColorsField.OnValueChange` | src/main/kotlin/SettingsView.kt:75-85 | the text is kept; only a valid list replaces the current one and clears the error; an invalid one only sets the error |
| `SettingsView.ColorsField.OnFocusChanged` | src/main/kotlin/SettingsView.kt:88-92 | leaving the field with invalid text shows the error; nothing else changes |
| `SettingsView.ColorsField.OnReset` | src/main/kotlin/SettingsView.kt:98-101 | the field shows the current list again and the message clears |
| `SettingsView.ResetAfterInvalidScenario` | src/main/kotlin/SettingsView.kt:98-101 | after invalid text and a reset, the list is shown but the field stays marked invalid |
| `SpinBoxes.SpinBox.constructor` | src/main/kotlin/SpinBox.kt:29-31 | the box shows the caller's value with no range message |
| `SpinBoxes.SpinBox.Step` | src/main/kotlin/SpinBox.kt:37-41 | text, last valid value and the caller's value become the new value, and the message clears |
| `SpinBoxes.SpinBox.OnDecrease` | src/main/kotlin/SpinBox.kt:35-44 | one less above the minimum, nothing at it; the last valid value stays in range |
| `SpinBoxes.SpinBox.OnIncrease` | src/main/kotlin/SpinBox.kt:88-97 | one more below the maximum, nothing at it; the last valid value stays in range |
| `SpinBoxes.SpinBox.DecreaseEnabled` | src/main/kotlin/SpinBox.kt:44 | the decrease arrow is disabled exactly at the minimum |
| `SpinBoxes.SpinBox.IncreaseEnabled` | src/main/kotlin/SpinBox.kt:97 | the increase arrow is disabled exactly at the maximum |
| `SpinBoxes.SpinBox.OnTextChange` | src/main/kotlin/SpinBox.kt:51-62 | the message shows exactly when the text is not an in-range `Int`; only an in-range value reaches the caller |
| `SpinBoxes.SpinBox.OnFocusChanged` | src/main/kotlin/SpinBox.kt:67-74 | leaving with bad text restores the last valid value and clears the message; good text stays |
| `SpinBoxes.HundredText` | src/test/kotlin/UiTests.kt:46 | "100" reads as 100 |
| `SpinBoxes.SpinBoxScenario` | src/test/kotlin/UiTests.kt:44-73 | typing 100 into a 3..6 box shows "Allowed range: 3 - 6" and keeps 4; at 3 only decrease and at 6 only increase is disabled; the arrows step 4 to 5 and back |
| `Server.ScoreLineOf` | src/main/kotlin/GameServer.kt:194-200 | a timeout is shown as such whatever the other fields; otherwise success or failure with attempts and time |
| `Server.Headlines` | src/main/kotlin/GameServer.kt:212-223 | the faster of two winners, or the only winner, wins; equal winning times draw; with no winner nobody wins; each headline says "win" exactly when the other says "lose" |
| `Server.HeadlinesSymmetric` | src/main/kotlin/GameServer.kt:212-223 | the outcome does not depend on who submitted first |
| `Server.ResultMessages` | src/main/kotlin/GameServer.kt:207-223 | each player's message has its headline, its own score and the opponent's, crosswise |
| `Server.DeliverToOpen` | src/main/kotlin/GameServer.kt:225-226 | letters to open connections are all written: each recipient gains its letter, no one else changes |
| `Server.DeliverToClosed` | src/main/kotlin/GameServer.kt:225-226 | a letter to a closed connection stops the delivery |
| `Server.BroadcastToOpen` | src/main/kotlin/GameServer.kt:177-180 | one message to distinct open connections reaches each of them once and no one else |
| `Server.Network.Send` | src/main/kotlin/GameServer.kt:59 | a write succeeds exactly on an open connection and then appends to its outbox |
| `Server.Network.Close` | src/main/kotlin/GameServer.kt:145 | the connection is closed; nothing is written |
| `Server.Network.SendAll` | src/main/kotlin/GameServer.kt:225-226 | writes in order until one fails, as `Deliver` specifies |
| `Server.GameSession.constructor` | src/main/kotlin/GameServer.kt:158-160 | no players, no results |
| `Server.GameSession.AddPlayer` | src/main/kotlin/GameServer.kt:162-171 | admits exactly while fewer than two are in, and never more than two distinct players |
| `Server.GameSession.IsReadyToStart` | src/main/kotlin/GameServer.kt:173 | ready means two different connections are in; not ready means there is room for another player |
| `Server.GameSession.StartGame` | src/main/kotlin/GameServer.kt:175-181 | the same secret, the picks joined with spaces, is written to each player in turn |
| `Server.GameSession.SubmitResult` | src/main/kotlin/GameServer.kt:183-188 | one result per connection; a later one replaces the earlier one and keeps its place |
| `Server.GameSession.IsComplete` | src/main/kotlin/GameServer.kt:190 | complete exactly when two different connections have submitted |
| `Server.GameSession.NotifyPlayers` | src/main/kotlin/GameServer.kt:202-227 | the result messages are written first submitter first, until one fails |
| `Server.GameSession.CloseSession` | src/main/kotlin/GameServer.kt:229-244 | every player's socket is closed and nothing is written |
| `Server.CompleteSession` | src/main/kotlin/GameServer.kt:190 | two results from players mean exactly two players, who are the two submitters |
| `Server.NewSession` | src/main/kotlin/GameServer.kt:55-57 | a new session whose only player is the creator |
| `Server.TakeCode` | src/main/kotlin/GameServer.kt:151-155 | the first pool code gives a four-digit key that no game has, and the invariant holds for the rest of the pool |
| `Server.ReturnCode` | src/main/kotlin/GameServer.kt:127-130 | a game key reads back as its code, which can rejoin the pool without a duplicate |
| `Server.GameServer.constructor` | src/main/kotlin/GameServer.kt:19-25 | no games, no clients, and the pool is a permutation of 1000..9999 |
| `Server.GameServer.GenerateGameCode` | src/main/kotlin/GameServer.kt:151-155 | the text of the first code, which leaves the pool; an empty pool fails |
| `Server.GameServer.DisconnectClient` | src/main/kotlin/GameServer.kt:121-149 | removes only the caller's code and closes it; if its game exists, the game is deleted, its code goes back to the pool once and all its players' sockets are closed; otherwise registry and pool are unchanged; nothing is written |
| `Server.GameServer.CloseGame` | src/main/kotlin/GameServer.kt:122-142 | `disconnectClient` for a connection whose game exists |
| `Server.GameServer.ShutSession` | src/main/kotlin/GameServer.kt:126-148 | the session's sockets and the caller's are closed; no note arrives |
| `Server.GameServer.ReleaseCode` | src/main/kotlin/GameServer.kt:127-130 | the game is deleted and `toInt` of its key is appended to the pool |
| `Server.GameServer.NotifyOpponents` | src/main/kotlin/GameServer.kt:131-141 | the "opponent disconnected" writes go to closed sockets, so no outbox changes |
| `Server.GameServer.CreateGame` | src/main/kotlin/GameServer.kt:52-61 | a new game under the first pool code, a key no live game has, with the creator as its only player, recorded in `clients`, with the code sent to the creator; an empty pool ends the connection exactly as `disconnectClient` does, writing nothing |
| `Server.GameServer.OpenGame` | src/main/kotlin/GameServer.kt:53-58 | the registry part of `createGame` |
| `Server.GameServer.FileGame` | src/main/kotlin/GameServer.kt:56-58 | files the session and the creator's code, keeping the invariant |
| `Server.GameServer.AdmitPlayer` | src/main/kotlin/GameServer.kt:67-68 | `addPlayer` on the game under the code; its results are untouched, and a refused player leaves it unchanged |
| `Server.GameServer.JoinGame` | src/main/kotlin/GameServer.kt:62-85 | a missing code, an unknown code or a full game give the matching error and change no registry, session or socket; otherwise the player is added and told so, a game with two players sends both the same secret, and no other session changes |
| `Server.GameServer.Admit` | src/main/kotlin/GameServer.kt:67-75 | a join to a game with room adds the player, keeps its results, and records, tells and starts as `Entered` describes, including the teardown after a failed write of the secret |
| `Server.GameServer.Refuse` | src/main/kotlin/GameServer.kt:78 | the error reply is appended to the joiner's outbox and no socket closes |
| `Server.GameServer.Enter` | src/main/kotlin/GameServer.kt:69-75 | records the code and writes `joined`; a game with one player changes nothing else; a game with two players gets the secret, and a failed write removes the joining connection, deletes the game, returns its code to the end of the pool and closes both players' sockets |
| `Server.GameServer.Begin` | src/main/kotlin/GameServer.kt:72-75 | the secret reaches both players and nothing else changes, or a failed write removes the joining connection, deletes the game, returns its code to the end of the pool and closes both players' sockets |
| `Server.GameServer.RecordResult` | src/main/kotlin/GameServer.kt:91-92 | the session part of `submitResult` |
| `Server.GameServer.FinishGame` | src/main/kotlin/GameServer.kt:93-98 | a complete game has two players whose sockets both end closed; when both result messages are written both players are disconnected and the game is gone, and if both still held its code it is deleted and its code returned exactly once; when a write fails the submitter is disconnected instead, which deletes the game and returns its code |
| `Server.GameServer.CloseAfterResults` | src/main/kotlin/GameServer.kt:96-97 | both players are disconnected after a successful notify, and a game whose code the submitter held is gone; otherwise the submitter is, which closes every socket of its game, deletes it and returns its code |
| `Server.GameServer.DisconnectBoth` | src/main/kotlin/GameServer.kt:96-97 | disconnecting both players removes both codes; a game either of them held is gone, and one both held is deleted with its code returned exactly once |
| `Server.GameServer.SubmitResult` | src/main/kotlin/GameServer.kt:86-101 | a connection without a game changes nothing; a non-result ends the connection and changes no session; otherwise the result is filed, a second one finishes the game as `Finished` describes, and no other session changes |
| `Server.GameServer.Submit` | src/main/kotlin/GameServer.kt:88-98 | the result is filed; an incomplete game changes nothing else; a complete one is finished, with both sockets closed, after both writes or after a failed one; no other session changes |
| `Server.GameServer.Conclude` | src/main/kotlin/GameServer.kt:93-98 | an incomplete game is left as it is and a complete one is finished |
| `Server.GameServer.Dispatch` | src/main/kotlin/GameServer.kt:44-119 | a closed connection, the end of the stream or an unknown action disconnects; `createGame`, a missing join code and a result without a game behave as above; none of these changes an existing session |
| `Server.CreateStep` | src/main/kotlin/GameServer.kt:52-61 | on a new server the creator's game has the first pool code, and the creator is told it |
| `Server.JoinStep` | src/main/kotlin/GameServer.kt:62-84 | the joiner is told `joined`, then both players receive the same secret |
| `Server.OpenMatchScenario` | src/main/kotlin/GameServer.kt:52-84 | the creator receives the code and then the secret; the joiner receives `joined` and then the same secret |

## Left out

- Sockets, streams, threads and the accept loop are not modelled. Connections are numbers, each `synchronized` block is one atomic call, and a write is an append to an outbox. `disconnectClient` from the handler's `finally` block runs outside the lock in the source; the model makes it atomic.
- Randomness is not modelled. The shuffled pool, the random secret of `startGame` and the random secret of `Game` are parameters. `IsCodePool` says the pool is a permutation of 1000..9999, and `IsSecretDraw` says each pick is a default colour.
- The result text is modelled as a headline and two score lines. Its exact wording, and the time printed in seconds with three decimals (floating point), are not modelled.
- `Games.Game.Play`: the guesses come as a list instead of from the console (`Player.kt` is not part of this model). The loop stops when the list runs out. The welcome and end messages are not modelled.
- Every `TimeManager` operation takes the current time as `now` instead of asking the time provider.
- `Words.Uppercase`, `Words.Trim` and `Numerals.ParseInt` treat only ASCII letters, whitespace and digits as Kotlin does. Other Unicode letters and digits are not modelled.
- `Checker.CheckGuess`: requires the guess to be no longer than the secret. A longer guess makes the source index the secret out of bounds.
- `SpinBoxes.SpinBox.constructor`: requires the starting value within the bounds. The application always passes such a value; an out-of-range start is not modelled.
- `Server.GameServer.Dispatch` states the outcomes for:
  - a closed connection, the end of the stream and an unknown action;
  - `createGame` with a non-empty pool;
  - a join request without a code;
  - a result from a connection without a game.

  The other outcomes are stated by `Server.GameServer.CreateGame`, `Server.GameServer.JoinGame` and `Server.GameServer.SubmitResult`, which it calls.
- `Server.GameServer.JoinGame` checks the player count itself and calls `addPlayer` (`AdmitPlayer`) only for a game with room. `AdmitPlayer` states that `addPlayer` refuses exactly a game with two players and then changes nothing, so the outcome is the one the source reaches.
- An unknown action calls `disconnectClient`, and then the next read fails and calls it again from `finally`. The second call changes nothing, so the model makes one call.
- The server invariant does not state that the pool and the live games together account for every code. It states only that the two never share a code.
- `Server.GameServer.FinishGame`: after both result messages are written it states the exact registry and pool only when both players still hold the game's code. A player who has since created or joined another game from the same connection holds that code instead, and its `disconnectClient` tears that game down too; the model then states only that the finished game is gone. `Server.GameServer.Submit` and `Server.GameServer.SubmitResult` inherit this.
- The end-to-end scenario covers creating and joining a game. The result phase is stated by `Server.GameServer.Submit` and `Server.GameServer.FinishGame`, and is not repeated as a scenario.
- `GameClient.kt`, the Compose UI, the scores database and the command-line entry points are not part of this model.
