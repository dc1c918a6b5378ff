# Connect-K and two-player Snake, with their game-framework adapters

This project models the game engines of the `rl-games` repository and the adapters that expose them to a sequential game framework. It also proves properties of that model.

- **Connect-K engine (`TTT`).** Two players alternate placing marks 0 and 1 on a rows x cols board whose empty cells hold 2. After each placement, the mover scores one point for every axis (horizontal, vertical, the two diagonals) along which the new mark now lies on a run of at least K equal marks.
- **Connect-K adapter (`_TTTState`, `TTTObserver`).** Moves are row-major cell numbers. The state reports TERMINAL once the board is full. Scores become zero-sum returns. The observer is a one-hot (opponent, current player, empty) tensor from a player's point of view.
- **Legacy Connect-K adapter (`games/tic_tac_toe/_pyspiel.py`).** It is the same adapter, except that its observer uses a cell's value directly as its channel.
- **Snake engine (`Snakes`).** Two snakes move on a height x width board. Each snake is a deque of cells, head first. Player p in {1, -1} is drawn with p for its body and 2p for its head; the fruit is 3 and an empty cell is 0. A step moves player 1, then player 2. Eating the fruit grows a snake. A head that leaves the board, or lands on anything but an empty cell, the fruit or its own head mark, kills the snake. A fruit is respawned on an empty cell after a snake ate, provided both snakes are still alive.
- **Snake adapter (`_SnakeState`, `_SnakeObserver`).** A simultaneous tick is split into two prompts. Player 0's key is buffered, and player 1's prompt plays both keys as one joint move. The observer shows five indicator channels.

Structure:

| module (file) | content |
|---|---|
| `Wrappers` (wrappers.dfy) | `Option` |
| `Spiel` (spiel.dfy) | the framework's player id, with `Terminal` |
| `Boards` (boards.dfy) | a board as a value, the bridge from an `array2` (`Snapshot`), single-cell update, row-major selections of cells |
| `Decimal` (decimal.dfy) | Python's `str` of an int, with a parser proving it injective |
| `ConnectK` (connect_k.dfy) | the run geometry as functions; the `TTT` class over an `array2` board |
| `ConnectKSpiel` (connect_k_spiel.dfy) | the action encoding, returns, action strings; `TTTState` and `TTTObserver` classes |
| `LegacyConnectKSpiel` (legacy_connect_k_spiel.dfy) | the absolute-channel observer |
| `SnakeGame` (snakes.dfy) | `World` (the engine state as a value) and one function per operation; the `Snakes` class over an `array2` board |
| `SnakeSpiel` (snake_spiel.dfy) | the action numbering, the turn protocol, returns, action strings; `SnakeState` and `SnakeObserver` classes |

Each class method is proved to change its state exactly as a function over values says. The properties the source promises are proved as lemmas about those functions.

Some quirks are kept as written and noted in the doc comments:
- The fruit field is not cleared when eaten.
- A one-cell snake leaves its old head cell empty.
- The new cell of a snake that dies on a move is pushed onto the deque but not drawn.
- Nothing in a move looks at the alive flag: a snake that is already dead keeps moving, can eat, and is drawn when it lands safely.
- The Snake adapter never resets its seat.
- `_game_over` is never set in the Snake adapter.
- The Snake observer takes its perspective from the state.
- The Snake observer has a (5, width, height) shape.

The legacy adapter's state is the same as the current one (`games/tic_tac_toe/_pyspiel.py:151-195` against `games/games/tic_tac_toe/_pyspiel.py:73-117`) except for the imported symbol table: the legacy `_action_to_string` reads `_PLAYERS_STR` from its own engine module, which is assumed equal to `PLAYERS_STR` (see "## Left out"). `ConnectKSpiel.TTTState` models both.

## Model

| member | source | states |
|---|---|---|
| Boards.Filled | games/games/tic_tac_toe/_game.py:15 | `np.full`: a board of the given shape with every cell holding the fill value |
| Boards.Set | games/games/snakes/_game.py:144-145 | a single-cell write: the shape is kept, the written cell holds the new value and every other cell is unchanged |
| Boards.Snapshot | games/games/snakes/_game.py:62 | the value of a 2-D array: same shape, same cell at every index |
| Boards.Positions | games/games/snakes/_game.py:114 | the row-major comprehension over the board: a cell is listed iff it is on the board and has (or, for the Connect-K count, has not) the value, in strictly row-major order |
| Boards.PositionsPartition | games/games/tic_tac_toe/_game.py:92-96 | the cells holding a value and the cells not holding it together number rows * cols |
| Boards.PositionsOfFilled | games/games/tic_tac_toe/_game.py:15 | a freshly filled board has no cell holding another value |
| Boards.PositionsAfterSet | games/games/tic_tac_toe/_game.py:75 | writing another value over a cell holding v adds exactly one cell to the cells not holding v |
| Decimal.NatToString | games/games/snakes/_pyspiel.py:114 | Python's decimal form of a natural number: non-empty, all digits |
| Decimal.IntToString | games/games/snakes/_pyspiel.py:114 | Python's decimal form of an int: a minus sign then digits for a negative number, else only digits |
| Decimal.NatToStringRoundTrip | games/games/snakes/_pyspiel.py:114 | reading the digits back gives the number |
| Decimal.IntToStringRoundTrip | games/games/snakes/_pyspiel.py:114 | parsing the decimal form of any int gives that int |
| Decimal.IntToStringInjective | games/games/tic_tac_toe/_pyspiel.py:110 | distinct ints have distinct decimal forms |
| Decimal.SplitUnique | games/games/snakes/_pyspiel.py:114 | a string made of a separator-free part, the separator and a rest splits in only one way |
| Decimal.IntToStringAvoids | games/games/snakes/_pyspiel.py:114 | a decimal form contains no character other than digits and '-' |
| ConnectK.RayIsMaximalRun | games/games/tic_tac_toe/_game.py:47-58 | the count of one `_check_line` walk is the length of the maximal run of the mark starting next to the cell: every cell up to it holds the mark and is on the board, the next one does not or is off the board |
| ConnectK.Ray | games/games/tic_tac_toe/_game.py:47-58 | one `while True` walk of `_check_line` in one direction: the number of cells holding the mark that follow the cell; its meaning is proved in RayIsMaximalRun, and WalkRay is proved equal to it |
| ConnectK.RunLength | games/games/tic_tac_toe/_game.py:46-58 | `_found`: the cell itself plus both rays from it; CheckLine is proved to test exactly `RunLength >= to_connect` |
| ConnectK.RunExtends | games/games/tic_tac_toe/_game.py:47-58 | if the mark holds on the next cell and on the n cells after it, then it holds on the n + 1 cells that follow (x, y) |
| ConnectK.PointsBound | games/games/tic_tac_toe/_game.py:78-80 | one move scores between 0 and 4 points |
| ConnectK.PointsOver | games/games/tic_tac_toe/_game.py:77-80 | the points of the first n axes of the direction loop; PointsOverCountsAxis and PointsBound state what it counts |
| ConnectK.Points | games/games/tic_tac_toe/_game.py:77-80 | the points of the new mark over all four axes, which CountLines is proved to compute and TTT.ApplyAction adds to the mover's score |
| ConnectK.PointsOverCountsAxis | games/games/tic_tac_toe/_game.py:78-80 | every axis whose run reaches K adds one point |
| ConnectK.AdjacentPairScores | games/games/tic_tac_toe/_game.py:43-59 | with K <= 2, a neighbour holding the same mark along any axis makes the move score |
| ConnectK.EveryAxisScoresWhenKAtMostOne | games/games/tic_tac_toe/_game.py:59 | with K <= 1 every move scores 4 |
| ConnectK.TTT.constructor | games/games/tic_tac_toe/_game.py:9-16 | a fresh game has an all-EMPTY board of the given shape, scores [0, 0], no moves played and player 0 to move |
| ConnectK.TTT.FullIffNoEmptyCell | games/games/tic_tac_toe/_game.py:18-19 | `is_full` (moves played >= rows * cols) holds iff no legal action is left, and the move count never exceeds the cell count |
| ConnectK.TTT.IsFull | games/games/tic_tac_toe/_game.py:18-19 | `is_full` as the move count against rows * cols; FullIffNoEmptyCell proves it means that no EMPTY cell is left |
| ConnectK.TTT.EmptyCellMeansNotFull | games/games/tic_tac_toe/_game.py:69-70 | a board with an EMPTY cell is not full, so the first assert of `apply_action` follows from the second |
| ConnectK.TTT.Returns | games/games/tic_tac_toe/_game.py:40-41 | the two scores, both non-negative |
| ConnectK.TTT.LegalActions | games/games/tic_tac_toe/_game.py:84-96 | a cell is listed iff it is on the board and EMPTY, in strictly row-major order |
| ConnectK.TTT.CheckLine | games/games/tic_tac_toe/_game.py:43-59 | `_check_line` is true iff the run through the cell along the axis, counting both directions and the cell itself, has length >= K |
| ConnectK.TTT.WalkRay | games/games/tic_tac_toe/_game.py:50-58 | one `while True` walk counts exactly the maximal run beside the cell in one direction |
| ConnectK.TTT.CountLines | games/games/tic_tac_toe/_game.py:78-80 | the loop over the four axes adds the number of axes whose run reaches K |
| ConnectK.TTT.ApplyAction | games/games/tic_tac_toe/_game.py:61-82 | the mover's mark is written on the chosen empty cell; the move count goes up by one; the turn passes; only the mover's score changes, by the number of axes completed; the invariant (alternation, marks only, move count = filled cells) is kept |
| ConnectKSpiel.ActionToPos | games/games/tic_tac_toe/_pyspiel.py:88-89 | Python's `divmod`: the unique (row, col) with row * cols + col = action and 0 <= col < cols |
| ConnectKSpiel.PosToAction | games/games/tic_tac_toe/_pyspiel.py:84-86 | `pos2action`, row-major numbering; ActionToPosOfPosToAction and PosToActionOfActionToPos prove it inverse to ActionToPos, PosToActionMonotone and PosToActionRange its order and range |
| ConnectKSpiel.ActionToPosOfPosToAction | games/games/tic_tac_toe/_pyspiel.py:84-89 | decoding the number of a cell in a column range gives the cell back |
| ConnectKSpiel.PosToActionOfActionToPos | games/games/tic_tac_toe/_pyspiel.py:84-89 | encoding a decoded action gives the action back |
| ConnectKSpiel.DivModUnique | games/games/tic_tac_toe/_pyspiel.py:88-89 | a number has one quotient/remainder pair by cols |
| ConnectKSpiel.PosToActionMonotone | games/games/tic_tac_toe/_pyspiel.py:84-86 | row-major order on cells is numeric order on their actions |
| ConnectKSpiel.PosToActionRange | games/games/tic_tac_toe/_pyspiel.py:84-86 | a cell on the board has an action in [0, rows * cols) |
| ConnectKSpiel.ActionToPosInRange | games/games/tic_tac_toe/_pyspiel.py:88-89 | an action in [0, rows * cols) decodes to a cell on the board |
| ConnectKSpiel.EncodeAll | games/games/tic_tac_toe/_pyspiel.py:92 | the comprehension encodes the cells one by one, in order |
| ConnectKSpiel.EncodedEmptyCells | games/games/tic_tac_toe/_pyspiel.py:91-92 | the legal actions are strictly increasing, and a number is listed iff it is in [0, rows * cols) and its cell is EMPTY |
| ConnectKSpiel.ScoreReturns | games/games/tic_tac_toe/_pyspiel.py:102-107 | returns are zero-sum: [0, 0] unless the game is over with unequal scores, then +1 for the higher scorer's side and -1 for the other |
| ConnectKSpiel.ScoreReturnsSymmetric | games/games/tic_tac_toe/_pyspiel.py:102-107 | swapping the scores swaps the returns |
| ConnectKSpiel.PlayerSymbol | games/games/tic_tac_toe/_game.py:5 | `PLAYERS_STR[player]` with Python's negative indexing: 'X' for 0 (or -3), 'O' for 1 (or -2), ' ' for 2 (or -1) |
| ConnectKSpiel.ActionToString | games/games/tic_tac_toe/_pyspiel.py:109-110 | the player's symbol followed by the parenthesised cell |
| ConnectKSpiel.PairToStringInjective | games/games/tic_tac_toe/_pyspiel.py:110 | distinct cells print differently |
| ConnectKSpiel.PairToString | games/games/tic_tac_toe/_pyspiel.py:110 | Python's `str` of a (row, col) tuple, `(r, c)`; PairToStringInjective proves distinct cells print differently |
| ConnectKSpiel.ActionToStringInjective | games/games/tic_tac_toe/_pyspiel.py:109-110 | distinct actions of one player print differently |
| ConnectKSpiel.RelativeChannel | games/games/tic_tac_toe/_pyspiel.py:138-140 | each cell's channel is one of 0, 1, 2 |
| ConnectKSpiel.RelativeChannelMeaning | games/games/tic_tac_toe/_pyspiel.py:124 | the channel is 2 iff the cell is empty, 1 iff it holds the observer's mark, 0 iff it holds the opponent's |
| ConnectKSpiel.RelativeChannelSwap | games/games/tic_tac_toe/_pyspiel.py:138-140 | the other player's view of a filled cell swaps channels 0 and 1 and keeps channel 2 |
| ConnectKSpiel.TTTState.constructor | games/games/tic_tac_toe/_pyspiel.py:74-77 | a fresh state is not over and wraps a fresh engine |
| ConnectKSpiel.TTTState.CurrentPlayer | games/games/tic_tac_toe/_pyspiel.py:79-82 | TERMINAL iff `_game_over`, otherwise the engine's player, which is the move count mod 2 |
| ConnectKSpiel.TTTState.LegalActions | games/games/tic_tac_toe/_pyspiel.py:91-92 | the engine's legal cells, each encoded |
| ConnectKSpiel.TTTState.LegalActionsAreEmptyCells | games/games/tic_tac_toe/_pyspiel.py:91-92 | the legal action numbers are increasing and are exactly the numbers of the empty cells |
| ConnectKSpiel.TTTState.ApplyAction | games/games/tic_tac_toe/_pyspiel.py:94-97 | the decoded cell is played on the engine and `_game_over` becomes "the board is full" |
| ConnectKSpiel.TTTState.IsTerminal | games/games/tic_tac_toe/_pyspiel.py:99-100 | a terminal state has a full board, and after the first move terminal means full |
| ConnectKSpiel.TTTState.Returns | games/games/tic_tac_toe/_pyspiel.py:102-107 | the zero-sum returns of the engine's scores |
| ConnectKSpiel.TTTObserver.constructor | games/games/tic_tac_toe/_pyspiel.py:120-126 | a zero tensor of shape (3, rows, cols) |
| ConnectKSpiel.TTTObserver.SetFrom | games/games/tic_tac_toe/_pyspiel.py:131-140 | at every cell exactly the channel of the cell's relative state is 1 and the other two are 0 |
| LegacyConnectKSpiel.AbsoluteIsSeatOneView | games/tic_tac_toe/_pyspiel.py:212-222 | the absolute view equals the relative view of player 1 |
| LegacyConnectKSpiel.AbsoluteDiffersForSeatZero | games/tic_tac_toe/_pyspiel.py:212-222 | for player 0 the absolute view puts every filled cell in the other channel than the relative view |
| LegacyConnectKSpiel.LegacyTTTObserver.constructor | games/tic_tac_toe/_pyspiel.py:198-207 | a zero tensor of shape (3, rows, cols) |
| LegacyConnectKSpiel.LegacyTTTObserver.SetFrom | games/tic_tac_toe/_pyspiel.py:212-222 | at every cell exactly the channel equal to the cell's value is 1; the `player` argument is ignored |
| SnakeGame.ActionsAreDirections | games/games/snakes/_game.py:24-35 | every key steers to one of the four unit directions, never to standing still |
| SnakeGame.LiveSnakesAreSafe | games/games/snakes/_game.py:171-175 | while both snakes live, a step writes only cells on the board |
| SnakeGame.Eat | games/games/snakes/_game.py:143-147 | the fruit branch keeps the engine invariant (configured shape, known keys, unit or zero velocities, bodies on the board, live heads on the board, fruit on the board) |
| SnakeGame.Vacate | games/games/snakes/_game.py:151-153 | the board after the old head is written as body and the old tail as EMPTY keeps its shape |
| SnakeGame.Slide | games/games/snakes/_game.py:149-162 | the non-fruit branch keeps the engine invariant |
| SnakeGame.SlideParts | games/games/snakes/_game.py:149-162 | the branch pops the tail, marks the snake dead iff the new cell collides, and writes the head only when it does not; nothing else changes |
| SnakeGame.Move | games/games/snakes/_game.py:130-162 | `_move_snake` keeps the invariant, the shape, every velocity and the fruit field, leaves the other snake alone, never revives the snake, and eating never changes the alive flag (a dead snake can still eat) |
| SnakeGame.MoveAll | games/games/snakes/_game.py:173-175 | the move loop over distinct players keeps the invariant, velocities and fruit field, leaves a player outside the loop untouched and revives nobody |
| SnakeGame.MoveAllNext | games/games/snakes/_game.py:174-175 | one more turn of the move loop: the next player can still move, and the loop's result is the previous result followed by that player's move, with the eaten flags or-ed |
| SnakeGame.Respawned | games/games/snakes/_game.py:113-119 | respawning keeps the invariant and changes only the fruit and the board |
| SnakeGame.Winner | games/games/snakes/_game.py:167-169 | once the game is over: player 1 iff it is alive, player 2 iff it is alive, None iff both are dead |
| SnakeGame.IsGameOver | games/games/snakes/_game.py:164-165 | `is_game_over`: some snake is dead; StepSpawnsOnlyAfterEating and SnakeReturns use it |
| SnakeGame.Stepped | games/games/snakes/_game.py:171-178 | `step` keeps the engine invariant and never changes the board size or the velocities |
| SnakeGame.PlaceHeads | games/games/snakes/_game.py:78-81 | the set-up loop keeps the board's shape |
| SnakeGame.StartWorld | games/games/snakes/_game.py:58-81 | the world of `__init__` before its fruit satisfies the invariant |
| SnakeGame.InitialWorld | games/games/snakes/_game.py:58-82 | a fresh game satisfies the invariant |
| SnakeGame.Steered | games/games/snakes/_game.py:108-111 | `make_move` sets the player's velocity to the key's direction and changes nothing else |
| SnakeGame.MoveStandingStill | games/games/snakes/_game.py:133-134 | with velocity (0, 0) a move changes nothing and eats nothing |
| SnakeGame.MoveOntoFruit | games/games/snakes/_game.py:143-147 | landing on the fruit eats it: the deque grows by the new head with the tail kept, old head to body, new cell to head, no other cell changes, no collision check, the fruit field is left naming the head |
| SnakeGame.VacateCells | games/games/snakes/_game.py:151-153 | after vacating, the old tail is EMPTY, the old head (if not the tail) is body, every other cell is as before |
| SnakeGame.CollidesUnlessSafe | games/games/snakes/_game.py:121-128 | the new cell collides iff it is off the board or (after vacating) holds something other than EMPTY, FRUIT or the snake's own head mark |
| SnakeGame.Collides | games/games/snakes/_game.py:121-128 | `_is_collision` on a board value: off the board or holding a value outside `ignore`; CollidesUnlessSafe states what it means after vacating, and Snakes.IsCollision is proved equal to it |
| SnakeGame.MoveElsewhereBoardIs | games/games/snakes/_game.py:149-161 | the board after a non-fruit move is the vacated board, with the head written iff the landing is safe |
| SnakeGame.MoveElsewhereKeepsLength | games/games/snakes/_game.py:151-154 | a non-fruit move keeps the length: the new head is pushed and the old tail popped, and it reports no eating |
| SnakeGame.MoveElsewhereFate | games/games/snakes/_game.py:157-161 | the snake is alive afterwards iff it was alive and lands safely; the new cell holds the head mark iff the landing is safe, and a cell it collides into is left as it was, so the new cell of a snake that dies on this move is never drawn |
| SnakeGame.MoveElsewhereBoard | games/games/snakes/_game.py:151-161 | the old head becomes body (or EMPTY when it was also the tail), the old tail becomes EMPTY, all other cells except the new one are unchanged |
| SnakeGame.OneCellSnakeLeavesNoBody | games/games/snakes/_game.py:152-153 | a one-cell snake leaves its old head cell EMPTY |
| SnakeGame.MoveNeverShrinks | games/games/snakes/_game.py:130-162 | no move shortens a snake, and eating lengthens it by exactly one |
| SnakeGame.StepMovesPlayerOneFirst | games/games/snakes/_game.py:173-175 | `step` moves player 1 and then player 2 on the resulting world, and "fruit eaten" is the or of both |
| SnakeGame.StepAliveOnlyFalls | games/games/snakes/_game.py:159 | alive flags only go from true to false over a step |
| SnakeGame.StepNeverShrinks | games/games/snakes/_game.py:171-178 | no snake gets shorter over a step |
| SnakeGame.StepSpawnsOnlyAfterEating | games/games/snakes/_game.py:177-178 | a fruit is respawned iff a snake ate and the game is not over; otherwise the fruit field is kept and the random choice is irrelevant |
| SnakeGame.StepBothStillIsNoop | games/games/snakes/_game.py:133-134 | a step with both snakes standing still changes nothing |
| SnakeGame.SpawnFruitOutcome | games/games/snakes/_game.py:113-119 | the fruit is None iff no cell is EMPTY (the board then unchanged); otherwise it is an EMPTY cell on the board and only that cell becomes FRUIT |
| SnakeGame.SpawnFruitPicksIndex | games/games/snakes/_game.py:114-118 | choice i takes the i-th empty cell in row-major order |
| SnakeGame.SpawnFruitCanChooseAnyEmptyCell | games/games/snakes/_game.py:118 | every empty cell can be the chosen one |
| SnakeGame.InitialWorldLayout | games/games/snakes/_game.py:58-82 | a fresh game: player 1's head at (0, 0) and player 2's at (height-1, width-1) (drawn last, so it wins on a 1 x 1 board), both alive and still, at most one fruit on an otherwise empty cell |
| SnakeGame.StartBoardLayout | games/games/snakes/_game.py:58-82 | before the fruit is spawned, the board holds player 2's head mark at its corner, player 1's at its corner unless it was overwritten there, and EMPTY everywhere else |
| SnakeGame.Corridor | games/games/snakes/_game.py:58-82 | the 1 x 3 world with the two snakes facing each other is a valid engine state |
| SnakeGame.FirstMoverWinsHeadOnRace | games/games/snakes/_game.py:171-175 | two snakes racing for the same empty cell: player 1, moved first, takes it and player 2 dies; in the other order player 1 would die |
| SnakeGame.DeadSnakeKeepsMoving | games/games/snakes/_game.py:130-162 | nothing in `_move_snake` reads the alive flag: a dead snake still eats the fruit, and one that lands on an empty cell gets its head mark drawn while staying dead |
| SnakeGame.BothSnakesEatOneFruit | games/games/snakes/_game.py:143-147 | because the fruit field is not cleared, player 2 also "eats" the fruit player 1 just ate, overwriting its head; both grow, and the respawn finds no empty cell |
| SnakeGame.Snakes.constructor | games/games/snakes/_game.py:58-82 | the engine built by `__init__` is the initial world |
| SnakeGame.Snakes.MakeMove | games/games/snakes/_game.py:108-111 | the engine acts as `Steered` |
| SnakeGame.Snakes.SpawnFruit | games/games/snakes/_game.py:113-119 | the engine acts as `Respawned` |
| SnakeGame.Snakes.IsCollision | games/games/snakes/_game.py:121-128 | `_is_collision` on the array is the collision test on its snapshot |
| SnakeGame.Snakes.MoveSnake | games/games/snakes/_game.py:130-162 | the engine, its board written in place, acts as `Move` and returns whether the snake ate |
| SnakeGame.Snakes.SetCell | games/games/snakes/_game.py:144 | one array write is `Set` on the snapshot |
| SnakeGame.Snakes.EatFruit | games/games/snakes/_game.py:143-147 | the engine acts as `Eat` |
| SnakeGame.Snakes.SlideTo | games/games/snakes/_game.py:149-162 | the engine acts as `Slide` |
| SnakeGame.Snakes.PushAndVacate | games/games/snakes/_game.py:151-154 | the old head cell becomes body and then the old tail cell becomes EMPTY, the deque gains the new head and loses its tail; nothing else changes |
| SnakeGame.Snakes.Step | games/games/snakes/_game.py:171-178 | the engine acts as `Stepped` |
| SnakeSpiel.ActionKey | games/games/snakes/_pyspiel.py:6 | action numbers 0..3 are W, A, S, D, steering up, left, down, right |
| SnakeSpiel.ActionKeysNumberActions | games/games/snakes/_pyspiel.py:6 | the numbering is a bijection between 0..3 and the keys of `ACTIONS` |
| SnakeSpiel.LegalActions | games/games/snakes/_pyspiel.py:85-87 | exactly the numbers 0..3, one per key, whatever the state |
| SnakeSpiel.Prompt | games/games/snakes/_pyspiel.py:89-100 | player 0's prompt buffers the key and passes to player 1 without a joint move; player 1's prompt plays (buffer, key), adds one to the counter and resets neither the seat nor the buffer |
| SnakeSpiel.Run | games/games/snakes/_pyspiel.py:89-100 | the turn fields stay well formed over any sequence of prompts |
| SnakeSpiel.SeatLock | games/games/snakes/_pyspiel.py:89-100 | after the first prompt the seat is 1 for good, the counter equals the number of joint moves, and every joint move pairs the first key with the latest one |
| SnakeSpiel.MoveCapAfterPrompts | games/games/snakes/_pyspiel.py:7 | the counter reaches 100 exactly after more than 100 prompts |
| SnakeSpiel.JointMove | games/games/snakes/_pyspiel.py:98-100 | after the two `make_move`s and the `step`, the invariant holds and the velocities are the two keys' directions |
| SnakeSpiel.SteeredIsSafe | games/games/snakes/_pyspiel.py:98-100 | the two `make_move`s leave the snakes where they are, so with both heads on the board the `step` writes only cells on the board |
| SnakeSpiel.SnakeReturns | games/games/snakes/_pyspiel.py:105-111 | returns are zero-sum: [0, 0] while the game runs or when both died, else +1 for player 1's side iff player 1 survived and -1 iff player 2 survived |
| SnakeSpiel.SnakeReturnsSymmetric | games/games/snakes/_pyspiel.py:105-111 | swapping the alive flags swaps the returns |
| SnakeSpiel.ActionToString | games/games/snakes/_pyspiel.py:113-114 | the player's number, a colon and the key |
| SnakeSpiel.ActionToStringInjective | games/games/snakes/_pyspiel.py:113-114 | the string determines both the player and the action |
| SnakeSpiel.ActionToStringRoundTrip | games/games/snakes/_pyspiel.py:113-114 | the player number can be read back from the string |
| SnakeSpiel.SnakeState.constructor | games/games/snakes/_pyspiel.py:72-78 | a fresh state: seat 0, nothing buffered, no moves, a fresh engine |
| SnakeSpiel.SnakeState.CurrentPlayer | games/games/snakes/_pyspiel.py:80-83 | TERMINAL iff `_game_over` (never set), otherwise the seat |
| SnakeSpiel.SnakeState.ApplyAction | games/games/snakes/_pyspiel.py:89-100 | the turn fields change as `Prompt` says; seat 0 leaves the engine alone, seat 1 plays the joint move |
| SnakeSpiel.SnakeState.PlayJointMove | games/games/snakes/_pyspiel.py:95-100 | seat 1's branch: the move count goes up by one, the seat stays 1 and the buffered key is kept, and the engine takes the joint move of the buffered key and this one |
| SnakeSpiel.SnakeState.IsTerminal | games/games/snakes/_pyspiel.py:102-103 | terminal iff some snake is dead or 100 joint moves were played |
| SnakeSpiel.SnakeState.Returns | games/games/snakes/_pyspiel.py:105-111 | the zero-sum returns of the engine's alive flags |
| SnakeSpiel.OwnSnake | games/games/snakes/_pyspiel.py:141-143 | "own" is player 1 iff the state's seat is 0 |
| SnakeSpiel.ChannelValues | games/games/snakes/_pyspiel.py:139-144 | the five channels indicate own body, opposite body, own head, opposite head and fruit |
| SnakeSpiel.ChannelValuesDistinct | games/games/snakes/_pyspiel.py:144-145 | no board value lights two channels |
| SnakeSpiel.ChannelValuesSwap | games/games/snakes/_pyspiel.py:141-143 | the two seats' views differ by swapping own and opposite channels |
| SnakeSpiel.SnakeObserver.constructor | games/games/snakes/_pyspiel.py:120-132 | a zero tensor of shape (5, width, height) |
| SnakeSpiel.SnakeObserver.SetFrom | games/games/snakes/_pyspiel.py:134-145 | on a square board each channel is the indicator of its value, seen from the state's seat whatever `player` is; on a non-square board it fails with the tensor all zero |

## Left out

- Rendering is not modelled: `to_str`, `__str__`, `__repr__`, `SYMBOLS`, `string_from`, and the `board` property. It is text output only.
- The unused `one_hot` helper is not modelled.
- The framework plumbing is not modelled: `GameType`/`GameInfo`, `register_game`, the `_TTTGame`/`_SnakeGame` factories, `make_py_observer`, and the framework base class. These are calls into a foreign library. The states and observers are plain classes, and `Spiel.PlayerId` stands in for the TERMINAL id.
- The observer's `ValueError` for non-empty `params` is not modelled, because the framework owns those parameters.
- The observers' tensors are float32 numpy arrays that a flat `tensor` and a shaped `dict` view share. Here they are one `array3<int>` of 0/1.
- `random.choice` is not modelled. Each operation that spawns a fruit takes a caller-supplied `pick`, and the cell chosen is `positions[pick % len(positions)]`. `SpawnFruitCanChooseAnyEmptyCell` shows that every empty cell can be chosen.
- The `__main__` blocks (they use `input`, `eval` and `print`) and the interactive front ends are not modelled.
- `games/tic_tac_toe/_game.py`, the legacy adapter's engine, is not part of this model. `LegacyConnectKSpiel` assumes it is the engine of `games/games/tic_tac_toe/_game.py`, with `_EMPTY = 2` and `_PLAYERS_STR = ['X', 'O', ' ']`.
- The legacy `_InteractivePlay` (`games/tic_tac_toe/_pyspiel.py:20-97`) is not modelled. It is event-driven UI.
- SnakeGame.Stepped: `step` (games/games/snakes/_game.py:171-178) has no inter-snake collision phase. Player 1 moves, then player 2 moves on the board player 1 left (StepMovesPlayerOneFirst, FirstMoverWinsHeadOnRace).
- SnakeGame.Snakes.Step: requires that both moves write only cells on the board (`StepSafe`). numpy's negative-index wrap-around and its `IndexError` are not modelled. They are reachable only when a dead snake whose head is off the board is stepped again with a non-zero velocity.
- SnakeGame.Snakes.MoveSnake: takes only the player. The source passes `velocities[player]` and `snakes[player]` explicitly, and the only caller always does this.
- SnakeSpiel.SnakeState.ApplyAction: requires an action in 0..3; the `KeyError` for other numbers is not modelled. Player 1's prompt also requires both heads on the board, for the same reason as `Step`. This always holds while both snakes live.
- SnakeSpiel.SnakeObserver.SetFrom: the numpy broadcast `ValueError` on a non-square board becomes a `false` result after the tensor has been cleared. The exception itself is not raised.
- ConnectKSpiel.TTTState.ApplyAction: requires `0 <= action < rows * cols` and `cols > 0`. numpy's negative-index wrap for a negative cell, and the `IndexError` for a number past the board, are not modelled. The engine's assertions (the cell is EMPTY, the board is not full) are preconditions rather than raised errors.
- ConnectK.TTT.ApplyAction: the source's asserts (the board is not full, the cell is EMPTY) are preconditions rather than raised `AssertionError`s.
- ConnectK.TTT.CheckLine, ConnectK.TTT.WalkRay and ConnectK.TTT.CountLines are one source loop nest split into three methods.
- SnakeGame.Snakes.SetCell, SnakeGame.Snakes.EatFruit, SnakeGame.Snakes.SlideTo and SnakeGame.Snakes.PushAndVacate are the branches of `_move_snake`, split into separate methods. The behaviour is unchanged.
- SnakeSpiel.SnakeState.PlayJointMove is the second branch of `_apply_action`, split into a separate method. The behaviour is unchanged.
- Error paths no caller in the source reaches are preconditions rather than raised exceptions: ConnectKSpiel.PlayerSymbol and ConnectKSpiel.ActionToString require a player in -3..2 (the `IndexError` of `PLAYERS_STR[player]` is not modelled); SnakeSpiel.ActionToString requires an action in 0..3 (the `KeyError` of `_ACTION_NUMS[action]` is not modelled); SnakeGame.StartWorld, SnakeGame.InitialWorld, SnakeGame.Snakes.constructor and SnakeSpiel.SnakeState.constructor require a width and height of at least 1 (the errors `np.full` or the head write `self.board[snake[0]] = mark` raise for smaller sizes are not modelled); ConnectK.TTT.ApplyAction requires a cell on the board (numpy's negative-index wrap and its `IndexError` are not modelled).
- Python's unbounded integers match Dafny's: no width or wrap-around is involved in any of the modelled arithmetic.
