# rsblock core in Dafny

This project models the game logic of rsblock, a falling-block puzzle, in four parts:

- **The placement bot** (`tetris_bot.py`): `grid.dfy`, `matrix.dfy`, `bot_config.dfy`, `bot_sim.dfy`, `bot_eval.dfy`, `bot_moves.dfy`, `bot_choice.dfy`, `bot.dfy`.
  - It turns a shape a quarter at a time and tests collision on the 20 x 10 grid.
  - It drops, places and clears rows on a copy of the grid.
  - It scores a grid with seven weighted metrics.
  - It enumerates the `(rotations, x)` candidates and picks the best one, with an optional look-ahead at the next piece.
- **The standalone game** (`block.py`): `block.dfy`.
  - The 7 x 4 table of 4 x 4 rotation states.
  - `Board` handles collision, locking and the bottom-up row clear.
  - `Piece` handles moves and the wall-kick rotation.
  - The drop, gravity and scoring steps of the game loop.
- **The networked client's game state** (`multiplayer-block-client.py`): `client.dfy`.
  - Its own collision test, move, rotate, drop and lock.
  - Score and level.
  - The client's `clear_lines`, modelled as written.
  - Junk rows, for the player and for the bot opponent.
- **The server's bookkeeping** (`block-server.py`): `server.dfy`.
  - The high-score table.
  - Matchmaking over the `clients` map and the `waiting_player` slot.
  - Every socket send is a `(recipient, message)` pair appended to an outbox.

**Shared definitions.** `grid.dfy` holds the collision rule, the landing row of a drop, the placement of a piece and the compaction of full rows. The three game files share it. `matrix.dfy` holds the clockwise quarter-turn of a shape matrix.

**How the model is written.**
- State the source changes in place is a class with `modifies` frames:
  - the bot's grid and pieces (`shape` is turned in place while enumerating moves);
  - `Board`, `Piece` and `Game`;
  - `Tetromino` and `TetrisGame`;
  - `TetrisServer`.
- Each such method is proved against a specification function on values.
- Loops in the source are `while` loops with invariants: the collision scans, placement, the three row clears, the seven evaluation metrics, move enumeration, selection, drops and junk rows.
- Random draws are parameters: the error draw and the two `random.choice` indices of the bot, piece colours and indices, and junk-row gaps.
- `options.dfy` holds the `Option` type.

**Behaviour of the source that the model keeps, with lemmas that show it.**
- The client's `clear_lines` collects the full-row indices top to bottom. It then pops them from the last to the first, inserting an empty row at index 0 after each pop.
  - With one full row this is a correct removal (`Client.OneFullRowCompacts`).
  - With two or more, each insertion shifts the rows that are still to be removed, so later pops hit the wrong row.
  - When the two bottom rows are full, a full row stays at the bottom (`Client.BottomPairLeavesFullRow`).
- The space-bar drop of the standalone game recomputes the level without the cap of 10 that the down-arrow and gravity paths apply (`Block.SpaceDropPassesCap`).
- The server pairs a waiting client that joins again with itself (`Server.JoinSelfPairs`).

**The bot's `clear_lines` scan.** It scans top to bottom and never re-checks index y after a removal. The row that slides into y was already scanned, so the scan still removes every full row (`BotSim.ClearLines`, `BotSim.ScanStep`).

## Model

| member | source | states |
|---|---|---|
| Grid.EmptyGridIff | tetris_bot.py:14 | the empty grid is exactly the 20 x 10 grid whose every cell is 0 |
| Grid.EmptyRowNotFull | tetris_bot.py:350 | the empty row put on top after a clear is never a full row |
| Grid.CollidesIff | tetris_bot.py:289-314 | the row-major collision scan is true iff some occupied cell lands outside the columns, below the floor, or on an occupied on-board cell; cells above the board never block |
| Grid.FreeBlock | block.py:220-232 | every block of a piece that does not collide sits on a free position |
| Grid.FloorCollides | tetris_bot.py:166-169 | a piece with a block collides once anchored at or below the floor, so every drop ends |
| Grid.DropY | tetris_bot.py:166-169 | the landing row is at or below the start, inside the board, every row down to it is free, and one more step collides |
| Grid.DropStep | tetris_bot.py:167-169 | one free step down does not change where the piece lands |
| Grid.PlacedCells | tetris_bot.py:316-332 | after placing, each on-board cell under a block holds the value, and every other cell keeps its old value |
| Grid.NonFullSize | tetris_bot.py:334-353 | surviving rows plus removed rows account for every row, and each survivor is a non-full row of the input |
| Grid.NonFullAppend | tetris_bot.py:334-353 | survivors and the full-row count of two stacked blocks of rows are those of each block, stacked |
| Grid.CompactedShape | tetris_bot.py:334-353 | compaction keeps the 20 x 10 format, leaves no full row, and puts one empty row on top per removed row |
| Grid.NoFullRowsKept | tetris_bot.py:345-351 | rows without a full row are kept as they are and count 0 cleared rows |
| Matrix.Rotated | tetris_bot.py:273-287 | the quarter-turn of an r x c matrix is a c x r matrix |
| Matrix.RotatedCells | tetris_bot.py:283-285 | for every cell, rotated[c][rows - 1 - r] == shape[r][c] |
| Matrix.HalfTurn | tetris_bot.py:273-287 | two quarter-turns turn the matrix upside down and mirror it |
| Matrix.HalfTurnTwice | tetris_bot.py:273-287 | four quarter-turns give back the matrix |
| Matrix.FullTurn | tetris_bot.py:160-161 | turning a shape four times in the rotation loop gives back the shape |
| Matrix.RotatedHasBlock | tetris_bot.py:273-287 | a quarter-turn never loses the blocks of a shape |
| Matrix.RotNHasBlock | tetris_bot.py:160-161 | any number of quarter-turns keeps a block in the shape |
| BotConfig.SettingsFor | tetris_bot.py:26-45 | the error rate is a probability, both delays are positive, and look-ahead is on exactly for medium and hard |
| BotConfig.WeightsFor | tetris_bot.py:48-67 | in every tier holes, height, bumpiness, wells and overhangs are penalised and lines and edge contact rewarded; easy penalises holes less and rewards lines more than the base, hard penalises holes and height more |
| BotEval.MoreHolesScoreLower | tetris_bot.py:424-435 | with the other metrics fixed, more holes give a strictly lower score in every tier |
| BotEval.TopRow | tetris_bot.py:368-372 | the downward scan stops at the first occupied row of the column, and every row above it is empty |
| BotEval.ColumnHeightTop | tetris_bot.py:366-372 | a column's height is 0 iff the column is empty, and otherwise 20 minus the index of its topmost block |
| BotEval.MaxOfIsMax | tetris_bot.py:375 | the maximum height is one of the heights and no height exceeds it |
| BotEval.WellAt | tetris_bot.py:400-414 | a column adds well depth iff it is lower by more than one than both neighbours (the walls count as 20), and the depth is at most 20 |
| BotEval.MetricsBounds | tetris_bot.py:366-423 | every metric stays within what a 20 x 10 grid allows (heights 0..20, edge contacts at most 40, the others non-negative); the maximum height is 0 exactly on the empty grid |
| BotEval.MaxHeightZero | tetris_bot.py:366-375 | the tallest column has height 0 iff no cell is occupied |
| BotEval.EvaluatePosition | tetris_bot.py:355-435 | the seven metric loops and their weighted sum compute the specification's score of the grid |
| BotEval.ColumnHeights | tetris_bot.py:366-372 | the height loop computes each column's height as specified |
| BotEval.CountHoles | tetris_bot.py:377-385 | the hole loop counts the empty cells that have a block somewhere above them |
| BotEval.Bumpiness | tetris_bot.py:387-390 | the loop sums the height differences of adjacent columns |
| BotEval.EdgeTouch | tetris_bot.py:392-398 | the loop counts the occupied cells of the two border columns |
| BotEval.WellDepth | tetris_bot.py:400-414 | the loop sums the well depth of every column |
| BotEval.Overhangs | tetris_bot.py:416-422 | the loop counts empty cells with an empty cell below and blocks on both sides |
| BotEval.Abs | tetris_bot.py:390 | the absolute value is non-negative and equals n or -n |
| BotSim.RotateShape | tetris_bot.py:273-287 | the nested loops build the c x r quarter-turn of the shape |
| BotSim.CheckCollision | tetris_bot.py:289-314 | the scan reports a hit exactly when the shifted piece collides under the collision rule |
| BotSim.PlacePiece | tetris_bot.py:316-332 | cells under the piece get shape_idx + 1, off-board blocks are dropped, and every other cell is unchanged |
| BotSim.ClearLines | tetris_bot.py:334-353 | the count is the number of full rows of the input, and the grid is the compacted grid with no full row left |
| BotSim.ScanStep | tetris_bot.py:345-351 | one step of the top-down scan keeps the invariant: cleared rows on top, then the scanned survivors, then the unscanned rows |
| BotMoves.ColumnMovesIff | tetris_bot.py:260-267 | a move is found in a pass iff it has that rotation count, a column from -2 on, and the turned piece does not collide at row 0 |
| BotMoves.PassMovesIff | tetris_bot.py:250-267 | a pass yields a move iff the pass is not skipped and the move fits at row 0 of a column -2..9 |
| BotMoves.MovesUpToIff | tetris_bot.py:246-267 | the moves of the first k passes are exactly the fitting moves of the passes that are not skipped |
| BotMoves.SkipMeansFixed | tetris_bot.py:250-255 | if some later turn leaves the turned shape unchanged, a quarter-turn leaves the shape itself unchanged |
| BotMoves.FixedPasses | tetris_bot.py:250-255 | for a shape a turn leaves unchanged, every pass after the first is skipped and holds the shape |
| BotMoves.TurningPasses | tetris_bot.py:250-255 | for a shape a turn changes, no pass is skipped and pass r holds the shape turned r times |
| BotMoves.CandidatesIff | tetris_bot.py:235-271 | a move is a candidate iff 0 <= rotations <= 3 (only 0 for a shape a turn leaves unchanged), -2 <= x <= 9, and the turned piece fits at row 0 |
| BotMoves.SquareQuarterTurn | tetris_bot.py:251-254 | a quarter-turn leaves the square unchanged |
| BotMoves.SquareOnEmpty | tetris_bot.py:260-267 | on an empty grid the square fits at row 0 exactly in columns 0..8 |
| BotMoves.SquareCandidates | tetris_bot.py:235-271 | for the square on an empty grid, the candidates are exactly the nine unrotated moves at columns 0..8 |
| BotChoice.MaxScore | tetris_bot.py:213 | Python's max of two scores is one of them and neither is above it |
| BotChoice.AddHalf | tetris_bot.py:216 | the move's score is its plain score plus half the next score; minus infinity stays minus infinity |
| BotChoice.BestOf | tetris_bot.py:184-213 | the running maximum from minus infinity is attained by some score and no score is above it; it is minus infinity for no scores |
| BotChoice.BestOfStep | tetris_bot.py:213 | one more candidate updates the running maximum with max |
| BotChoice.PlainScores | tetris_bot.py:186-212 | each move's score is the evaluation of its simulated grid after clearing |
| BotChoice.TiedIff | tetris_bot.py:218-223 | a move is among the tied moves iff it is listed with exactly that score |
| BotChoice.TiedNone | tetris_bot.py:218-223 | when every score is below the given one, no move is tied |
| BotChoice.Selection | tetris_bot.py:147-223 | the selection loop ends with the best score and exactly the moves that reach it, in order |
| BotChoice.SelectionStep | tetris_bot.py:218-223 | a strictly better score restarts the tied list, an equal one joins it, and a lower one changes nothing |
| BotChoice.SelectionPrefix | tetris_bot.py:218-223 | selecting over one more move extends the selection over the prefix by those three cases |
| BotChoice.SelectionTop | tetris_bot.py:218-223 | every selected move is listed with the top score |
| BotChoice.SelectionNonEmpty | tetris_bot.py:218-226 | with at least one candidate, some move is selected and every selected move is a candidate |
| BotChoice.ChosenFromSelection | tetris_bot.py:218-226 | above the error rate, the chosen move is the tied move at the drawn index |
| BotChoice.ChosenIsCandidate | tetris_bot.py:124-226 | no move is chosen iff the piece has no candidate; otherwise the chosen move is a candidate |
| BotChoice.ChosenIsBest | tetris_bot.py:143-226 | above the error rate, the chosen move is a candidate whose score no candidate beats |
| Bot.Piece.constructor | tetris_bot.py:73-76 | a piece handed to the bot has the given shape, anchor and index |
| Bot.TurnShape | tetris_bot.py:160-161 | the rotation loop gives the shape turned n times |
| Bot.DropFromTop | tetris_bot.py:165-169 | the drop from row 0 stops at the landing row |
| Bot.SimulateMove | tetris_bot.py:153-178 | the simulated grid is the landed grid compacted, and the row count is its number of full rows |
| Bot.TryColumns | tetris_bot.py:260-267 | the column loop collects exactly the fitting columns -2..9 of the pass |
| Bot.BestPlainScore | tetris_bot.py:184-213 | the look-ahead loop returns the best plain score of the next piece's moves |
| Bot.TetrisBot.constructor | tetris_bot.py:7-67 | a new bot has the empty grid, no pieces, and its tier's settings and weights |
| Bot.TetrisBot.SetGrid | tetris_bot.py:69-71 | the bot holds the given grid |
| Bot.TetrisBot.SetPieces | tetris_bot.py:73-76 | the bot holds the given current and next pieces |
| Bot.TetrisBot.GetPossibleMovesForPiece | tetris_bot.py:235-271 | returns exactly the candidates of the piece's shape and puts the shape back as it was |
| Bot.TetrisBot.GetPossibleMoves | tetris_bot.py:228-233 | no moves without a current piece; otherwise that piece's candidates on the bot's grid |
| Bot.TetrisBot.FindBestMove | tetris_bot.py:124-226 | the result is the specified choice for the current piece (none without one), and both pieces keep their shapes |
| Bot.TetrisBot.ChooseMove | tetris_bot.py:140-226 | the early exits, the error draw and the tie-break give the specified choice |
| Bot.TetrisBot.SelectAmong | tetris_bot.py:147-223 | the candidate loop ends with the selection of the candidates' scores |
| Bot.TetrisBot.ScoreMove | tetris_bot.py:150-216 | the loop body gives the move's score, with the look-ahead term when it is on and a next piece is set |
| Bot.TetrisBot.BestNextScore | tetris_bot.py:180-216 | the look-ahead gives the best plain score of the next piece on the new grid, and the piece keeps its shape |
| Block.PieceStates | block.py:33-159 | each piece has four rotation states, each 4 x 4 with four blocks |
| Block.ShapeTableFacts | block.py:33-159 | seven pieces of four states, every state 4 x 4 with exactly four blocks, and the O piece identical in all four |
| Block.StateHasBlock | block.py:33-159 | every state has a block, so every drop lands |
| Block.SpawnFree | block.py:266-271 | any state spawned at (cols // 2 - 2, -1) fits on an empty board |
| Block.ScanCollision | block.py:220-232 | the 4 x 4 scan reports a hit exactly when the state collides at the anchor |
| Block.Board.constructor | block.py:163-164 | a new board is 20 x 10 and empty |
| Block.Board.IsCollision | block.py:220-232 | true exactly when the piece's current state collides at its position |
| Block.Board.LockPiece | block.py:234-241 | the colour id is written under every on-board block, and every other cell is unchanged |
| Block.Board.ClearLines | block.py:243-262 | returns the number of full rows of the input and leaves the compacted grid |
| Block.Board.CheckRow | block.py:246-260 | one step of the bottom-up scan moves a full row to "cleared" or a non-full row to "scanned" |
| Block.Board.ShiftDown | block.py:252-258 | row y is removed, the rows above move down one, and an empty row goes on top |
| Block.Board.CopyRowDown | block.py:253-254 | row y takes the cells of the row above; nothing else changes |
| Block.Board.BlankTop | block.py:257-258 | the top row is emptied; nothing else changes |
| Block.FirstFreeIff | block.py:299-321 | the kick found is free and every earlier kick collides; with none found, all collide |
| Block.KickOrder | block.py:295-323 | kicks are tried in place, left, right, then up |
| Block.Turn | block.py:297 | the next rotation is in 0..3 and wraps to 0 only from 3 |
| Block.Piece.constructor | block.py:266-271 | a new piece has the given colour, that colour's states, rotation 0, and the spawn position |
| Block.Piece.MoveLeft | block.py:274-279 | moves one column left iff that does not collide, else nothing changes; a free piece stays free |
| Block.Piece.MoveRight | block.py:281-286 | moves one column right iff that does not collide, else nothing changes; a free piece stays free |
| Block.Piece.MoveDown | block.py:288-293 | moves one row down iff that does not collide, else nothing changes; a free piece stays free |
| Block.Piece.Rotate | block.py:295-323 | succeeds iff some kick is free: then the next state at the first free kick, else position and rotation restored |
| Block.Piece.CheckCollisionAtPosition | block.py:446-459 | the collision of the current state at the given position |
| Block.LineScoreRewardsTogether | block.py:564-571 | rows cleared together score more than the same rows cleared separately |
| Block.LineScoreMonotone | block.py:564-571 | more rows never score less, and any cleared row scores |
| Block.CappedLevel | block.py:575 | the level is between 1 and 10, and is score // 300 + 1 below the cap |
| Block.UncappedLevel | block.py:609 | the space-bar level is at least 1 |
| Block.LevelsMonotone | block.py:573-609 | both levels never drop as the score grows and agree below 2700 points |
| Block.SpaceDropPassesCap | block.py:607-609 | at 3000 points the space bar gives level 11, where the other paths give 10 |
| Block.NewRound | block.py:498-501 | an empty board and two distinct spawned pieces, the first one free |
| Block.Game.constructor | block.py:498-512 | a new game has an empty board, two spawned pieces, score 0 and level 1 |
| Block.Game.Restart | block.py:541-550 | after game over: a fresh board and pieces, score 0, level 1, game running |
| Block.Game.SteerPiece | block.py:552-588 | left and right move one column when that column is free and otherwise leave the piece where it is; up turns to the next rotation state at the first free kick offset and otherwise changes nothing; the piece stays on free cells, and the board, next piece, score, level and game-over flag are unchanged |
| Block.Game.HardDrop | block.py:593-594 | the piece falls to its landing row |
| Block.Game.Settle | block.py:595-620 | lock, compact, add the line score, recompute the level (capped or not), promote the next piece, and end the game iff it collides |
| Block.Game.AddPoints | block.py:597-609 | the line score is added and the level recomputed |
| Block.Game.Promote | block.py:616-620 | the next piece becomes current, a new piece spawns, and the game is over iff the promoted piece collides |
| Block.Game.LockAndClear | block.py:595-596 | the piece is written in and the full rows are removed and counted |
| Block.Game.KeyDrop | block.py:557-620 | down arrow and space bar: fall to the landing row, then settle; only the space bar leaves the level uncapped |
| Block.Game.GravityTick | block.py:675-706 | the piece steps down if free, with nothing else changing; otherwise it settles where it is |
| Client.ShapeFacts | multiplayer-block-client.py:31-39 | seven shapes, each a matrix with a block, at most 2 rows and 4 columns |
| Client.FreeFits | multiplayer-block-client.py:420-427 | a piece that does not collide lies inside the columns |
| Client.SpawnOnEmptyBoard | multiplayer-block-client.py:271-272 | a spawned piece fits the columns and is free on an empty board |
| Client.AboveBoardFree | multiplayer-block-client.py:423-425 | a piece inside the columns and wholly above the board never collides |
| Client.EmptyBoardFree | multiplayer-block-client.py:420-427 | a piece inside the columns and on the board is free on an empty board |
| Client.RaisedY | multiplayer-block-client.py:415-418 | the piece rises to the lowest free row at or above its row |
| Client.PositionsIff | multiplayer-block-client.py:135-142 | a position is listed iff it lies under a block of the piece |
| Client.FullIndicesIff | multiplayer-block-client.py:512-516 | an index is collected iff its row is full |
| Client.FullIndicesCount | multiplayer-block-client.py:512-523 | the number of indices collected is the number of full rows |
| Client.PopInsertWellFormed | multiplayer-block-client.py:520-521 | one pop and insert keeps the 20 x 10 format |
| Client.NoFullRowUnchanged | multiplayer-block-client.py:511-523 | without a full row, `clear_lines` changes nothing |
| Client.OneFullRowCompacts | multiplayer-block-client.py:511-523 | with exactly one full row, `clear_lines` gives the compacted grid |
| Client.BottomPairLeavesFullRow | multiplayer-block-client.py:511-523 | with the two bottom rows full, a full row is left at the bottom and the result is not the compacted grid |
| Client.JunkRowNotFull | multiplayer-block-client.py:407-412 | a junk row holds 8 everywhere but its gap, which is 0, so it is never full |
| Client.JunkPushedRows | multiplayer-block-client.py:402-413 | n junk rows drop the top n rows, move the rest up, and fill the bottom n rows in order |
| Client.JunkPushedWellFormed | multiplayer-block-client.py:402-413 | junk rows keep the 20 x 10 format |
| Client.JunkPushedStep | multiplayer-block-client.py:402-413 | one more junk row drops the top row and appends that junk row |
| Client.JunkLine | multiplayer-block-client.py:407-412 | the row built cell by cell is the junk row of the gap |
| Client.ClearPointsTogether | multiplayer-block-client.py:462 | rows cleared together are worth at least as much as separately, and strictly more for two or more |
| Client.ClientLevelGrows | multiplayer-block-client.py:489 | the level starts at 1, never drops, and rises by one every ten rows |
| Client.Tetromino.constructor | multiplayer-block-client.py:112-121 | a new piece has the given index, that shape and anchor |
| Client.Tetromino.Rotate | multiplayer-block-client.py:123-130 | returns the quarter-turn and leaves the piece alone |
| Client.Tetromino.GetPositions | multiplayer-block-client.py:135-142 | one position per block, in row-major order |
| Client.TetrisGame.constructor | multiplayer-block-client.py:261-304 | empty grids, two spawned pieces, zero counters and level 1 |
| Client.TetrisGame.CheckCollision | multiplayer-block-client.py:420-427 | true exactly when the falling piece collides |
| Client.TetrisGame.MovePiece | multiplayer-block-client.py:437-446 | moves by (dx, dy) iff that does not collide, else nothing changes, and reports which |
| Client.TetrisGame.RotatePiece | multiplayer-block-client.py:429-435 | takes the quarter-turn unless it collides |
| Client.TetrisGame.DropPiece | multiplayer-block-client.py:448-450 | the piece falls to its landing row |
| Client.TetrisGame.FullRows | multiplayer-block-client.py:512-516 | collects the indices of the full rows, top to bottom |
| Client.TetrisGame.ClearLines | multiplayer-block-client.py:511-523 | returns the number of full rows and leaves the grid the pops and inserts give |
| Client.TetrisGame.PopRow | multiplayer-block-client.py:520-521 | the row is popped and an empty row inserted on top |
| Client.TetrisGame.WritePiece | multiplayer-block-client.py:453-456 | shape_idx + 1 is written under every on-board block, and every other cell is unchanged |
| Client.TetrisGame.AddJunkLines | multiplayer-block-client.py:400-418 | the grid takes the junk rows and the piece rises until it is free |
| Client.TetrisGame.PushOpponentJunk | multiplayer-block-client.py:471-486 | the opponent grid takes one junk row per gap |
| Client.TetrisGame.LockPiece | multiplayer-block-client.py:452-509 | the whole new state: grid, lines, score at the old level, level, the opponent's junk and score, the messages, the promoted piece and game over |
| Client.TetrisGame.Tally | multiplayer-block-client.py:459-489 | counters, score and level after n rows, and the opponent's junk and score or the message |
| Client.TetrisGame.Promote | multiplayer-block-client.py:492-505 | the next piece becomes current, a new one spawns, and the game is over iff the promoted piece collides |
| Client.TetrisGame.ResetGame | multiplayer-block-client.py:719-742 | empty grids, new pieces, zeroed counters, and a ready message in connected multiplayer |
| Client.TetrisGame.ResetState | multiplayer-block-client.py:720-730 | the reset assignments |
| Server.InsertDescRanked | block-server.py:59 | inserting a row into a descending table keeps it descending |
| Server.SortDescRanked | block-server.py:59 | the sort yields a table descending by score |
| Server.SortDescPerm | block-server.py:59 | the sort is a permutation of its input |
| Server.InsertDescSplit | block-server.py:59 | a new row goes after every row with a score at least as high, before the rest |
| Server.RankSplits | block-server.py:59 | the rows before the insertion point score at least the new score, the rows after it less |
| Server.SortRankedUnchanged | block-server.py:59 | the sort leaves a descending table unchanged |
| Server.InsertDescStable | block-server.py:59 | inserting one row into a descending table keeps, for each score, the rows with that score in their order, the new row last among them |
| Server.SortDescStable | block-server.py:59 | the sort is stable for any table: for each score, the rows with that score keep their input order |
| Server.SortAppendRanked | block-server.py:56-59 | sorting a descending table plus a new row inserts that row at its rank |
| Server.AddScoreRanked | block-server.py:52-63 | the new table is descending, has at most 20 rows, and has min(20, n + 1) of them |
| Server.AddScoreRows | block-server.py:52-63 | counted with multiplicity, the rows of the new table are among the old rows plus the new one |
| Server.AddScoreToRanked | block-server.py:52-63 | on a descending table the new row lands at its rank if that is below 20; otherwise the table is unchanged |
| Server.RegisterKeepsWaiting | block-server.py:126-136 | registering adds exactly the new id and keeps the waiting player a connected client |
| Server.JoinKeepsClients | block-server.py:208-263 | a join keeps the set of clients and keeps the waiting player a connected client |
| Server.JoinGreets | block-server.py:210-229 | a known joiner is sent its id and then the high scores, first; its name is the given one (else kept) and its mode the given one (else "single") |
| Server.JoinPairs | block-server.py:232-256 | a multiplayer join with a present waiting player links both, clears the slot, and sends each a game start with the other's name |
| Server.JoinWaits | block-server.py:257-259 | a multiplayer join with no present waiting player makes the joiner wait |
| Server.JoinSingleKeepsWaiting | block-server.py:208-263 | a join in any other mode leaves the waiting slot and every opponent link alone |
| Server.JoinSelfPairs | block-server.py:232-243 | the waiting client joining again is paired with itself |
| Server.ReadyKeepsClients | block-server.py:349-383 | a ready message keeps the set of clients and keeps the waiting player a connected client |
| Server.ReadyNeverSelf | block-server.py:355-357 | the waiting client sending ready changes nothing, so it is never paired with itself |
| Server.ReadyPairs | block-server.py:355-383 | a ready multiplayer client is paired with another present waiting client: both linked, slot cleared, both sent a game start |
| Server.ReadyOtherModes | block-server.py:349-355 | a ready message from an unknown client or one not in multiplayer mode changes nothing |
| Server.ReadyWaits | block-server.py:355-383 | a ready multiplayer client with no other present waiting client becomes the waiting client; no link changes, nothing is sent and the high scores are kept |
| Server.DisconnectKeepsWaiting | block-server.py:151-180 | a disconnect removes exactly that id and keeps the waiting player a connected client |
| Server.DisconnectEffects | block-server.py:151-180 | an unknown id changes nothing; otherwise the client is removed and no longer waiting, and a present opponent is unlinked and sent opponent_disconnected |
| Server.GridUpdateKeepsClients | block-server.py:265-282 | a grid update keeps the set of clients and the waiting slot |
| Server.GridUpdateEffects | block-server.py:265-282 | grid and score are stored, and forwarded to the opponent only when the mode (from the message, else stored) is multiplayer and the opponent is present |
| Server.ClearLinesEffects | block-server.py:284-300 | only the outbox changes; the lines (default 0) go to a present opponent of a multiplayer client, and nothing is sent otherwise |
| Server.GameEndKeepsClients | block-server.py:302-347 | a game over keeps the set of clients and the waiting slot |
| Server.GameEndEffects | block-server.py:302-347 | the score (default 0) is always recorded and the table sent first; with a present multiplayer opponent both are told the opponent won, the opponent gets the table, and both are unlinked |
| Server.TetrisServer.constructor | block-server.py:16-28 | no clients, no waiting player, the loaded high scores and an empty outbox |
| Server.TetrisServer.SendMessage | block-server.py:385-392 | the message is queued for a known recipient and dropped for an unknown one |
| Server.TetrisServer.Connect | block-server.py:126-136 | the new client is registered |
| Server.TetrisServer.AddHighScore | block-server.py:52-68 | the table becomes the sorted and truncated table with the new row: descending and at most 20 rows |
| Server.TetrisServer.PairWith | block-server.py:236-254 | both clients are linked, the slot is cleared, and both get a game start |
| Server.TetrisServer.HandleJoin | block-server.py:208-263 | the new state is the specified join |
| Server.TetrisServer.RecordJoin | block-server.py:210-229 | the name and mode are recorded and the greeting messages queued |
| Server.TetrisServer.MatchOrWait | block-server.py:232-260 | in multiplayer, pair with a present waiting player or wait |
| Server.TetrisServer.HandleGridUpdate | block-server.py:265-282 | the new state is the specified grid update |
| Server.TetrisServer.HandleClearLines | block-server.py:284-300 | the new outbox is the specified forwarding of the lines |
| Server.TetrisServer.HandleGameOver | block-server.py:302-347 | the new state is the specified game end |
| Server.TetrisServer.HandleReadyForNewGame | block-server.py:349-383 | the new state is the specified ready step |
| Server.TetrisServer.HandleClientDisconnect | block-server.py:151-180 | the new state is the specified disconnect |

## Left out

- Rendering and input: every `draw*` method, the menus, the pygame event handling of `game_loop`, `handle_input` and `run`. They are presentation only.
- Sockets and JSON:
  - the client's `connect_to_server`, `send_message`, `receive_messages` and `process_messages`;
  - the server's `start`, `stop`, `handle_client` read loop and `process_message` dispatch.
  - Messages are typed values: a JSON field that may be absent is an `Option`, and fields of other types are not modelled.
- The send failure path: `send_message` closes the connection on a socket error. The model's sends always succeed.
- `load_high_scores` and `save_high_scores` (file I/O). The loaded table is a constructor parameter, and saving is not modelled.
- Threads, locks and sleeps: the bot's `start`, `stop`, `run` and its think and move delays, `SimpleTetrisBot`, the message-queue lock, and the server's `with self.lock` blocks. Each handler is one atomic step.
- Server.TetrisServer.HandleGameOver: modelled as if it completes. In the source, `add_high_score` takes the same non-reentrant lock the handler already holds.
- Randomness: piece colours and indices, junk gaps, the bot's error draw and its two `random.choice` picks are parameters.
- Floating-point timing: `fall_speed`, `0.95 ** (level - 1)`, frame and clock timing, and pause.
- `execute_move` and `initialize_bot`. They only build a dictionary or wire objects together.
- Bot.TetrisBot.SetGrid: stores the grid as a value, so the deep copy of the source needs no modelling. Aliasing between lists is not modelled anywhere: grids are sequences.
- BotConfig.SettingsFor: the difficulty is a three-valued datatype, so an unknown difficulty string is not modelled. In the source such a string keeps the base weights (tetris_bot.py:58-67) and then raises a KeyError at the settings lookup in `run` (tetris_bot.py:106) and `find_best_move` (tetris_bot.py:135).
- Bot.TetrisBot.FindBestMove: requires the current and next pieces to be different objects (`TetrisBot.Valid`). `set_pieces` (tetris_bot.py:73-76) stores the references it is given, so the source accepts one object passed as both pieces, and the model does not cover that case. Nothing is lost by this: the move search changes a piece's shape only temporarily and restores it before the shape is read again, so with one object the source returns what it returns for two equal pieces.
- Client.TetrisGame.constructor: `connected` is fixed when the game is made. Connecting and disconnecting are not modelled.
- Server.TetrisServer.HandleJoin: a join from an unknown id is a no-op. In the source it raises `KeyError`, which `process_message` catches.
- Server.Join: a waiting player counts as present when its id is non-empty and still registered, which is Python's truthiness for the uuid strings the server issues.
