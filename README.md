# Cornugopia game core in Dafny

Cornugopia is a web server for playing Go. This project models the parts of it that decide what happens on the board and on the clock:

- **Server game state** (`app/game_state.py`, module `Engine`, file `game_state.dfy`). The `GameState` class holds the board as a flat list of cell codes (0 empty, 1 black, 2 white), the two previous boards used for the ko test, the turn, the pass counter, the prisoner counts and the end-of-game fields. Its operations are:
  - adjacency;
  - the liberty flood fill;
  - the capture, suicide and ko tests;
  - the move-legality test;
  - capture and group removal;
  - moves, resignation and passing;
  - the end of the game and territory scoring: flood-filled territory plus prisoners;
  - the dictionary round trip.
- **Browser replay engine** (`app/static/go_engine.js`, module `Replay`). It covers the opposite colour, adjacency without wrap-around, connected groups, liberties, capture, and the replay of a move log with handicap stones.
- **Handicap and rank helpers** (`app/game_helper.py`, module `Handicap`). Handicap stones go on the star points in the fixed order. Rank strings `30k`..`1k`, `1d`..`9d` and `1p`..`9p` are converted to one number scale.
- **SGF export** (`app/static/sgf_exporter.js`, module `Sgf`). A finished or running game is turned into SGF text. The model reads parts of that text back:
  - the handicap stone count and points read back exactly;
  - the moves read back in order, except resignations, which produce no node;
  - a counted result reads back as the leading colour and the margin.
  
  Some things are lost or only stated as text:
  - the two scores themselves are lost;
  - a komi of 0 is written as 6.5;
  - a time loss without a recorded winner is written as a win for White;
  - the board size and komi are only stated as the text written, not read back.
- **Timers** (`app/timers.py`, module `Timers`). This covers:
  - the registries of tracking tasks and join-timeout tasks;
  - the one-second tick of main time and byo-yomi;
  - the guard of the tracking loop;
  - the post-game purge condition.

Shared theory:

- `Groups` (`groups.dfy`) defines groups, liberties and the set of dead stones around a move over any neighbour table. This lets the Python and JavaScript engines be stated in the same terms.
- `Agreement` (`agreement.dfy`) proves that the two engines agree on every board size except 2 × 2.
- `Grid` holds row and column arithmetic.
- `Text` holds decimal numerals and Python's `str.strip`.
- `Wrappers` holds `Option`.

How the source's operations are modelled:

- Methods that change the game object in place (`make_move`, `remove_group`, `check_capture`, `end_game`, `place_handicap_stones`, the timer registries, `handle_time_controls`) are methods on classes with `modifies` clauses.
- The flood fills and scans (`count_liberties`, `count_territory`, `score_game`, `getConnectedGroup`, `hasLiberties`, `replayMovesUpTo`, `generateSGF`, the rank-table loops) are loops with invariants.
- Each loop is proved against a specification function (`Group`, `Liberties`, `Territory`, `DeadAround`, `Replayed`, `Export`, `Rank`). The properties of the source are proved about those functions.

## Model

| member | source | states |
|---|---|---|
| Engine.StoneOf | app/game_state.py:4-7 | `Stone(v)` succeeds exactly for the codes 0..2 and yields the member with that value |
| Engine.Opponent | app/game_state.py:73 | the opponent of White is Black and of everything else White; a stone's opponent is never itself |
| Engine.KeepNeighboursMembers | app/game_state.py:263-269 | a cell is listed exactly when it is some direction's candidate, on the board, and within one column of `index` |
| Engine.NeighboursMembers | app/game_state.py:259-271 | the listed neighbours are exactly the kept cells among index ± size and index ± 1 |
| Engine.NeighboursInBounds | app/game_state.py:265 | every listed neighbour is a cell of the board |
| Engine.NeighboursOrthogonal | app/game_state.py:259-271 | on every board other than 2 × 2, a cell is listed exactly when it is one step left, right, up or down |
| Engine.RightWraps | app/game_state.py:267 | on the right edge of a board other than 2 × 2, the column test drops the cell that starts the next row |
| Engine.WrapOnTwoByTwo | app/game_state.py:267 | on the 2 × 2 board, cell 1 is listed as a neighbour of cell 2 although the two are diagonal |
| Engine.TableShape | app/game_state.py:259-271 | neighbour lists stay on the board and adjacency is symmetric |
| Engine.FillComplete | app/game_state.py:197-215 | when the liberty fill stops, the visited cells are the whole group and the recorded cells are its liberties |
| Engine.TerritoryComplete | app/game_state.py:234-256 | when the territory fill stops, the region is the whole empty area and the recorded colours are the colours bordering it |
| Engine.FillDone | app/game_state.py:240-253 | the finished territory fill visited the new region exactly, which is disjoint from the earlier regions, and recorded its border colours |
| Engine.OwnerOfBorder | app/game_state.py:254-256 | an area is owned by a colour exactly when that colour alone borders it, and is neutral otherwise |
| Engine.RegionScored | app/game_state.py:222-228 | scanning one new empty area adds its size to the owner's territory count and nothing to the other colour |
| Engine.TerritoryCovered | app/game_state.py:222-223 | once every empty cell is visited, the visited cells contain the whole territory |
| Engine.CaptureKeepsOthers | app/game_state.py:72-79 | capturing around a stone empties only opposing stones and leaves every other cell unchanged |
| Engine.FirstWithColour | app/game_state.py:116 | the first seat in insertion order with the colour; None exactly when no seat has it |
| Engine.FirstOther | app/game_state.py:95-96 | the first seat whose id differs from the given one; None exactly when every seat has that id |
| Engine.Victor | app/game_state.py:101-111 | a tie gives no winner; otherwise the winner is a player seated with the colour ahead, and the previous winner stays only when no seat has that colour |
| Engine.GameState.constructor | app/game_state.py:10-26 | a fresh game: empty board of size × size cells, Black to move, no passes, no prisoners, not over |
| Engine.GameState.GetAdjacentIndices | app/game_state.py:259-271 | returns the neighbour list of the cell, in the order -size, +size, -1, +1 |
| Engine.GameState.IsInBounds | app/game_state.py:161-162 | true exactly for the indices of the board |
| Engine.GameState.IsUnoccupied | app/game_state.py:164-165 | true exactly when the cell is empty |
| Engine.GameState.CheckKo | app/game_state.py:167-170 | ko holds exactly when the board has a stone and equals the board of two moves ago |
| Engine.GameState.WouldCapture | app/game_state.py:178-194 | true exactly when, with the stone placed, some neighbouring opposing group has no liberty; the cell is left empty afterwards |
| Engine.GameState.IsSuicidal | app/game_state.py:172-176 | true exactly when the placed stone's group has no liberty and nothing is captured; the cell is left empty afterwards |
| Engine.GameState.IsValidMove | app/game_state.py:135-159 | false once the game is over; resignation is always allowed; otherwise only the player to move may act, a pass is allowed, and a stone needs an empty cell on the board, no suicide and no ko; the board is unchanged |
| Engine.GameState.CountLiberties | app/game_state.py:197-215 | returns the group of the starting cell as the visited set and the number of its liberties |
| Engine.GameState.RemoveGroup | app/game_state.py:81-87 | empties the group's cells and adds its black and white stones to the matching prisoner counts |
| Engine.GameState.CheckCapture | app/game_state.py:72-79 | removes exactly the liberty-less opposing groups next to the stone and credits their size to the captured colour's count |
| Engine.GameState.ScoreGame | app/game_state.py:217-232 | each colour's score is its territory (empty areas it alone borders) plus the prisoners it took |
| Engine.GameState.CountTerritory | app/game_state.py:234-256 | visits the whole empty area of the start cell and returns its owner, with the size when owned and 0 when neutral |
| Engine.GameState.EndGame | app/game_state.py:89-111 | ends the game with the reason; a resignation by a named player gives the win to the first other seat; a double pass stores the score and the winner by score; any other reason changes neither winner nor score |
| Engine.GameState.DecideByScore | app/game_state.py:98-111 | stores the final score and names the winner by score |
| Engine.GameState.MakeMove | app/game_state.py:113-132 | resignation ends the game and leaves the board alone; a pass counts one more pass; a stone keeps the two previous boards, is placed, captures the dead opposing groups next to it and resets the pass count; two passes end the game by score; the turn goes to the opponent |
| Engine.GameState.PlaceStone | app/game_state.py:122-127 | the stone branch of make_move: the earlier boards shift back and the new board is the capture result |
| Engine.GameState.ToDict | app/game_state.py:273-289 | the stored turn code reads back as the current turn |
| Engine.GameState.FromDict | app/game_state.py:291-307 | restoring a stored game gives an object whose `to_dict` is the stored dictionary; a turn code outside 0..2 gives no game |
| Engine.GameState.Restore | app/game_state.py:293-306 | the restored fields are the stored values, so `to_dict` gives the stored dictionary back |
| Replay.OppositeColour | app/static/go_engine.js:7-9 | the result is a stone colour different from the argument, and swaps black and white |
| Replay.AdjacentIndices | app/static/go_engine.js:11-22 | lists at most four neighbours; which ones is stated by Replay.AdjacentOrthogonal |
| Replay.AdjacentOrthogonal | app/static/go_engine.js:11-22 | on every board size, a cell is listed exactly when it is one step left, right, up or down |
| Replay.AdjacentInBounds | app/static/go_engine.js:16-19 | every listed neighbour is a cell of the board |
| Replay.AdjacencyShape | app/static/go_engine.js:11-22 | neighbour lists stay on the board and adjacency is symmetric |
| Replay.ConnectedGroup | app/static/go_engine.js:24-43 | returns each cell of the starting cell's group exactly once |
| Replay.HasLiberties | app/static/go_engine.js:45-55 | true exactly when some cell of the group has an empty neighbour |
| Replay.NoLibertyNoEmptyNeighbour | app/static/go_engine.js:45-59 | a group of one colour has no liberty exactly when none of its cells has an empty neighbour |
| Replay.IsCaptured | app/static/go_engine.js:57-60 | true exactly when the group at the cell has no liberty; for a stone, this is the group's death |
| Replay.ClearGroup | app/static/go_engine.js:95-97 | the listed cells are emptied and nothing else changes |
| Replay.DistinctCard | app/static/go_engine.js:98-99 | a list without repeats counts as many stones as its set, so the prisoner count is the group's size |
| Replay.CaptureNeighbour | app/static/go_engine.js:90-101 | checking one neighbour extends the removal to that neighbour's group when it is dead, and counts the new stones |
| Replay.PlayStone | app/static/go_engine.js:87-102 | the stone is written, and every liberty-less opposing group next to it is removed and counted |
| Replay.WithHandicaps | app/static/go_engine.js:69-72 | the handicap cells hold black stones and every other cell is unchanged |
| Replay.SetUp | app/static/go_engine.js:63-76 | the starting position is an empty board with the handicap stones, with White to move when there are handicap stones |
| Replay.SetupShape | app/static/go_engine.js:63-76 | the setup has black stones exactly on the handicap cells, no prisoners, and White to move exactly when there are handicap stones |
| Replay.ApplyMove | app/static/go_engine.js:79-104 | one turn of the loop is one step of the replay |
| Replay.ReplayMovesUpTo | app/static/go_engine.js:62-113 | the result is the position after the first `index` moves of the log, applied in order after the setup |
| Replay.ReplayedStep | app/static/go_engine.js:78-105 | replaying one more move applies that move to the position reached so far |
| Replay.PlacementEffect | app/static/go_engine.js:87-104 | a stone ends on its cell; every other changed cell is an opposing stone that was emptied; their number is the prisoners gained; the turn passes |
| Replay.ReplayPassAndResign | app/static/go_engine.js:81-85 | a resignation changes nothing; a pass only hands the turn over |
| Replay.CapturesGrow | app/static/go_engine.js:98-99 | prisoner counts never decrease along a replay |
| Agreement.SameTables | app/game_state.py:259-271 | except on the 2 × 2 board, the server and the browser list the same neighbours for every cell |
| Agreement.PlacementsAgree | app/static/go_engine.js:87-104 | except on the 2 × 2 board, one replay step of a stone gives the board, prisoners and turn that the server's make_move gives |
| Agreement.ServerSeesDiagonalLiberty | app/game_state.py:267 | on the 2 × 2 board of the first finding, the server counts the diagonal cell as a liberty, so the black stone lives |
| Agreement.ClientCapturesCorner | app/static/go_engine.js:16-19 | on the same board, the browser lists only orthogonal cells and the black stone is dead |
| Handicap.StarPointsShape | app/game_helper.py:9-13 | for 9, 13 and 19 the nine star points are distinct points of the board |
| Handicap.OrdersShape | app/game_helper.py:20-29 | the order for n stones picks n distinct star points |
| Handicap.Clamped | app/game_helper.py:31 | the stone count is the request capped at 9 |
| Handicap.PlacementsShape | app/game_helper.py:36-46 | the chosen cells are `count` distinct cells of the board |
| Handicap.PlaceHandicapStones | app/game_helper.py:7-49 | for an unknown size or fewer than 2 stones nothing changes; otherwise black stones go exactly on the chosen cells, in order, and White moves next |
| Handicap.NumeralValue | app/game_helper.py:58-67 | a numeral of the table is read as a number from 1 to 99 |
| Handicap.NumeralRoundTrip | app/game_helper.py:59 | a printed numeral reads back as its number |
| Handicap.NumeralCanonical | app/game_helper.py:59 | only the printed form of a number reads as that number (no leading zero) |
| Handicap.Rank | app/game_helper.py:55-67 | every rank maps to a number from 0 to 47 |
| Handicap.RankOfNumeral | app/game_helper.py:59 | a numeral followed by a rank letter splits back into that numeral and letter |
| Handicap.BuildRankTable | app/game_helper.py:55-67 | the filled table maps exactly the ranks, each to its number |
| Handicap.AddKyu | app/game_helper.py:58-59 | the kyu loop lists 1k to 30k, each with its number |
| Handicap.AddDan | app/game_helper.py:62-63 | the dan loop adds 1d to 9d and keeps the kyu ranks |
| Handicap.AddPro | app/game_helper.py:66-67 | the professional loop adds 1p to 9p and keeps the rest |
| Handicap.TableComplete | app/game_helper.py:55-67 | a sound table listing every kyu, dan and professional rank holds nothing else |
| Handicap.AddRank | app/game_helper.py:59 | one assignment keeps the table sound and extends the listed range by one |
| Handicap.RankIsNumeral | app/game_helper.py:55-67 | every rank is the printed numeral of its count followed by `k`, `d` or `p`, within the table's ranges |
| Handicap.Lower | app/game_helper.py:70 | lower-casing maps each character on its own and keeps the length |
| Handicap.RankToNumber | app/game_helper.py:69-71 | the trimmed, lower-cased input is looked up, giving its rank number or None |
| Handicap.RankScale | app/game_helper.py:57-67 | 30k is 0, 1k is 29, 1d is 30, 9d is 38, 1p is 39, 9p is 47; 31k, 10d, 0k and 05k are not ranks |
| Handicap.RankOfEachNumeral | app/game_helper.py:58-67 | n kyu is 30 - n, n dan is 29 + n, n pro is 38 + n |
| Text.DecimalRoundTrip | app/static/sgf_exporter.js:17 | a printed number reads back as itself |
| Text.Strip | app/game_helper.py:70 | the stripped text is no longer than the input and neither starts nor ends with whitespace |
| Text.StripSlice | app/game_helper.py:70 | strip keeps a slice of the text and cuts only whitespace on either side |
| Sgf.Komi | app/static/sgf_exporter.js:3 | a missing komi or a komi of 0 becomes 6.5; any other komi is kept |
| Sgf.KomiDefault | app/static/sgf_exporter.js:3 | without a komi, the export states `6.5` |
| Sgf.ColourLetter | app/static/sgf_exporter.js:6 | colour code 1 is B and every other code is W |
| Sgf.Coords | app/static/sgf_exporter.js:7-12 | coordinates are two letters |
| Sgf.CoordsRoundTrip | app/static/sgf_exporter.js:7-12 | the coordinates name their cell, and only a cell's own coordinates name it |
| Sgf.Points | app/static/sgf_exporter.js:24 | each handicap cell takes four characters `[xy]` |
| Sgf.PointsRoundTrip | app/static/sgf_exporter.js:24-25 | the AB point list reads back as the handicap placements, in order |
| Sgf.Node | app/static/sgf_exporter.js:55-61 | a resignation adds no node and every other move adds one |
| Sgf.NodesSnoc | app/static/sgf_exporter.js:54-62 | appending a move appends its node |
| Sgf.NodesStep | app/static/sgf_exporter.js:54-62 | the nodes of one more move are the earlier nodes plus that move's node |
| Sgf.PlayedCount | app/static/sgf_exporter.js:57-58 | the record shows one node per move, less the resignations |
| Sgf.ParseNode | app/static/sgf_exporter.js:55-60 | a node reads back as its move's colour and cell, or as a pass |
| Sgf.NodesRoundTrip | app/static/sgf_exporter.js:54-62 | the move nodes read back as exactly the moves that are not resignations, in order |
| Sgf.GenerateSgf | app/static/sgf_exporter.js:1-66 | the text built is `(;`, the root properties, the move nodes, `)` |
| Sgf.RootProperties | app/static/sgf_exporter.js:14-48 | the joined property list is the opening, then handicap, then result |
| Sgf.AppendNode | app/static/sgf_exporter.js:55-61 | one pass of the loop appends the move's node |
| Sgf.HandicapShown | app/static/sgf_exporter.js:22-26 | HA and AB appear exactly when stones were placed; they then read back as the stone count and the placements |
| Sgf.ExportFrame | app/static/sgf_exporter.js:51-65 | the export opens with `(;` and the fixed properties and is closed by `)` |
| Sgf.OpeningText | app/static/sgf_exporter.js:14-19 | the export opens with game type Go, format 4, the board size and the komi |
| Sgf.ResultShown | app/static/sgf_exporter.js:29-48 | RE appears exactly for finished games ended by resignation, by time, or by two passes with a score |
| Sgf.ScoredResult | app/static/sgf_exporter.js:38-46 | a counted game shows `RE[0]` exactly on a tie; otherwise it shows the leading colour and a margin that reads back as the score difference |
| Sgf.MarginText | app/static/sgf_exporter.js:45 | the margin in `RE[C+m]` reads back as m |
| Sgf.WinnerColour | app/static/sgf_exporter.js:31-32 | the winner's colour is read only for a winner who has a seat, and is that seat's colour; a missing winner or an unseated id gives no colour |
| Sgf.Result | app/static/sgf_exporter.js:29-48 | a running game has no RE property; any RE property written has the form `RE[...]` |
| Sgf.DecidedResult | app/static/sgf_exporter.js:34-37 | a resignation or time loss credits Black exactly when the winner is seated as Black, and White otherwise |
| Sgf.TimeoutCreditsWhite | app/static/sgf_exporter.js:36-37 | a game ended on time without a recorded winner is exported as a win for White (second finding) |
| Timers.Registry.constructor | app/timers.py:9-10 | both registries start empty |
| Timers.Registry.StartTimer | app/timers.py:13-15 | a game without a tracking task gets a new one; a game with one keeps it |
| Timers.Registry.StopTimer | app/timers.py:18-21 | the game's tracking task is removed and handed back for cancelling, if there was one |
| Timers.Registry.StartJoinTimeout | app/timers.py:35-38 | a game without a join-timeout task gets a new one; a game with one keeps it |
| Timers.Registry.PlayerSeated | app/timers.py:54-57 | once a player is seated, the join-timeout task is removed and handed back for cancelling; otherwise nothing changes |
| Timers.ParseInt | app/timers.py:126 | `int()` succeeds only on stripped text that starts with a digit or a sign, and gives a negative value only after a minus sign |
| Timers.InitialTime | app/timers.py:124-128 | the main time is the time control read as an integer, or 300 seconds when it is not one |
| Timers.ParseUnsigned | app/timers.py:126 | a digit run reads as its value |
| Timers.ParseSigned | app/timers.py:126 | a signed digit run reads as its value with that sign |
| Timers.ParsePrinted | app/timers.py:126 | a time control written as a number of seconds, signed or not, reads as that number |
| Timers.DefaultTime | app/timers.py:127-128 | texts that are not numbers (`""`, `"fast"`, `"1__0"`) give 300 |
| Timers.Initialised | app/timers.py:123-134 | after initialisation the mover has a main-time entry, and byo-yomi entries when there are periods |
| Timers.StepFrame | app/timers.py:118-157 | a tick changes only the mover's clock entries |
| Timers.MainTimeTick | app/timers.py:136-142 | with main time left, a tick takes one second off it; the player is out of time exactly when that was the last second and there is no byo-yomi |
| Timers.ByoYomiTick | app/timers.py:144-155 | without main time, a tick takes one second off the period; a period used up costs one period and restarts the period clock; the last period used up is a time loss; a missing entry is reported |
| Timers.TickCostsOneSecond | app/timers.py:130-155 | in byo-yomi play a tick costs exactly one second of total remaining time, and the player is out of time exactly when one second was left |
| Timers.Clock.HandleTimeControls | app/timers.py:118-157 | without a player to move nothing changes; otherwise the mover's clocks take one tick; a time loss ends the game by timeout and leaves the winner as it was |
| Timers.Clock.InitialiseEntries | app/timers.py:123-134 | the mover's missing entries are set to their starting values |
| Timers.Clock.CountDownMover | app/timers.py:136-155 | the mover's clock counts down one second |
| Timers.Clock.RunClock | app/timers.py:69-70 | the clock ticks only in an unfinished, timed game with two seats taken, outside scoring; a tick that runs out the time ends the game by timeout with the winner unchanged, and any other tick or no tick leaves the game's end-of-game fields unchanged |
| Timers.PurgeWhenAllGone | app/timers.py:100-101 | when only seated players leave disconnect records, the purge is due exactly when every one of them has left |
| Timers.EndOnTime | app/timers.py:138-140 | corrected time loss: the game ends by timeout and the win goes to the first other seat, never to the player who ran out |

## Left out

- Input and output: printing, the Redis store, `save_and_broadcast`, and the browser's `downloadSGF`. Operations that read or write the store take the stored values as parameters instead.
- Asynchrony and wall-clock time: the `track_game` and `join_timeout_check` loops, `asyncio.sleep`, and task cancellation. Task handles are modelled as numbered tokens.
- `handle_disconnection_timeouts` and the disconnect-time records. These compare floating-point timestamps from the clock and are not modelled beyond the purge condition.
- Engine.GameState.MakeMove: requires the index to be -2, -1 or a cell of the board. For other negative indices Python writes from the end of the list, and for indices past the end it raises IndexError. Both are out of scope.
- Engine.GameState.score_game and count_territory: the first definitions (lines 28-70) are replaced by the later ones in the class body, so only the later ones (lines 217-256) are modelled. The unused `white_score` and `black_score` fields are left out.
- Replay.ReplayMovesUpTo: requires `index` to be at most the log length, and every replayed move to be a pass, a resignation or a stone of either colour on the board. JavaScript fails on a missing entry and writes any other index into the array without error.
- Replay.IsCaptured: the `color` argument is accepted and ignored, as in the source.
- Sgf.GenerateSgf: requires the board size to keep every coordinate letter a valid character, and every move and handicap cell to be on the board. Off-board indices give characters outside the coordinate range in JavaScript and are not modelled.
- Sgf.Komi: komi is modelled in half points, which covers every value the game uses. Other floating-point komi values are left out.
- Sgf.WinnerColour: JavaScript looks up `players[null]`, which reads the key `"null"`. The model treats a missing winner as no winner; a player whose id is the text `null` is not modelled.
- Timers.Clock.HandleTimeControls: `time_left`, `byo_yomi_time_left`, `periods_left`, `byo_yomi_periods`, `byo_yomi_time`, `time_control` and `in_scoring_phase` live in a separate `Clock` object, because `GameState` (and `from_dict`) define none of them. As written, the tracking loop reads attributes that a restored `GameState` does not have.
- Timers.ParseInt: models `int()` on ASCII digits, signs, single underscores and Python's whitespace. Non-ASCII decimal digits, which `int()` also accepts, are left out.
- Handicap.RankToNumber: lower-casing is modelled for A–Z and the Kelvin sign (which lower-cases to `k`). Other Unicode case mappings cannot produce a rank and are left out.
- Handicap.PlaceHandicapStones: the `handicap_stones` attribute is a parameter and `handicap_placements` is the result, since neither is a `GameState` field.
- Engine.GameState: `players` is a list of seats in insertion order, which would allow one id to appear twice. A Python dictionary cannot hold that, and no contract depends on ids being distinct.
- Timers.Registry.PlayerSeated: the number of seated players is a parameter, because the game is read from the store.

## Findings

| source | as written | input that shows it | evidently intended | confidence | as-written member | corrected member |
|---|---|---|---|---|---|---|
| app/game_state.py:267 | The column test `abs(index % size - neighbor % size) > 1` cannot catch a wrap on a 2-wide row: column 1 and column 0 of the next row differ by 1. | 2 × 2 board, white on cells 0 and 3, black on 1, cell 2 empty. The server lists diagonal cell 2 as a liberty of the black stone, which lives; the browser replay captures it. Game creation in `app/main.py` accepts only sizes 9, 13 and 19, so the running server never builds this board and the error is latent. | Only orthogonal neighbours count, as in the browser engine. The two agree on every other size. | not executed | Agreement.ServerSeesDiagonalLiberty | Replay.AdjacentOrthogonal |
| app/game_state.py:89-96 | `end_game(reason="timeout", resigned_player=p)` records neither the loser nor a winner; only `"resign"` names one. | White runs out of main time with no byo-yomi in a game without a winner yet. The exporter writes `RE[W+T]`, a win for the player who lost on time. | The player who did not run out of time wins. | not executed | Sgf.TimeoutCreditsWhite | Timers.EndOnTime |

`Engine.GameState` keeps the server's adjacency as written, so that its contracts describe the server. `Timers.Clock.HandleTimeControls` ends the game through `EndGame` as written, which leaves the winner unchanged. The corrected members state the intended behaviour beside them.
