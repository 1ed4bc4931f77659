# Tic-tac-toe rules engine

This project models the rules engine inside the React component `TicTacToe`
(`src/tictactoe.jsx`), a human-against-human game of tic-tac-toe on a 3×3
board, and proves properties of that model.

The project has two modules:

- `Rules` (`rules.dfy`) holds the pure part:
  - the marks: `Player` is `X` or `O`;
  - the cells: `Cell` is `Empty` or `Mark(p)`;
  - the table of the eight winning lines (`WinningCombos`);
  - the win detector `CheckWin`, which returns the first line of the table whose three cells hold the mover's mark;
  - the full-board test `IsFull`;
  - mark counts on a board (`CountOf`).

  `WonBy` is an independent reference definition of a win ("some line of the table is held"). `CheckWin` is proved against it.
- `Game` (`game.dfy`) holds the component's five state fields: `board`, `currentPlayer`, `gameOver`, `message` and `winningCells`.
  - `GameState` is a snapshot of those fields.
  - `Click` and `Initial` give the effect of the click handler and of the reset button on a snapshot.
  - `Consistent` is the invariant of every reachable state.
  - `Play` replays a sequence of clicks and resets.
  - The class `TicTacToe` keeps the fields. The board is an `array<Cell>`. `HandleClick` copies the board into a fresh array, writes the clicked cell, and commits the copy, as the component does. Its methods are proved to follow `Click` and `Initial`, and to keep `Consistent`.

The component's state is modelled as one sequential machine. Each call of the click handler or of reset is one atomic update that reads the state as it was before the call. This matches the component's code: the handler works from its local copy `newBoard` and from the `currentPlayer` it closed over. The win detector is given the mover explicitly, for the same reason. The component reads it through that closure.

After a move, only the mover's lines are looked for, as in the code: `checkWin` compares each cell with `currentPlayer`. There is no separate check for the other player. The invariant `Game.Consistent` shows that such a check would never find anything.

## Model

| member | source | states |
|---|---|---|
| `Rules.WinningCombosAreRowsColumnsDiagonals` | src/tictactoe.jsx:10-14 | The table of winning lines is exactly the three rows, then the three columns, then the two diagonals of a row-major 3×3 board. Each entry is three distinct cell indices below 9. |
| `Rules.LineHeld` | src/tictactoe.jsx:40 | A line is held by a player exactly when every cell index in it is on the board and holds that player's mark (`every` with `===`). An index off the board never counts as held. |
| `Rules.FirstHeld` | src/tictactoe.jsx:39-41 | The search of the table (`find` with `every`) returns the index of a line held by the player, with no held line before it from where the search started. If no line from there on is held, it returns the table's length. |
| `Rules.CheckWin` | src/tictactoe.jsx:38-42 | The detector returns nothing exactly when the player holds no line of the table. Otherwise it returns the first held line in table order. |
| `Rules.IsFull` | src/tictactoe.jsx:28 | The tie test (`every(cell => cell)`): the board is full exactly when no cell is empty. |
| `Rules.Symbol` | src/tictactoe.jsx:32 | Each mark is shown as its own character: 'X' exactly for X and 'O' exactly for O. |
| `Rules.CountOfIsMultiplicity` | src/tictactoe.jsx:19-20 | Proof helper for the mark counts of the balance invariant: the number of a player's marks on any board is the multiplicity of that mark among the cells. |
| `Rules.CountAfterPlace` | src/tictactoe.jsx:19-20 | Writing the mover's mark on an empty cell adds one mark of the mover. The other player's count does not change. |
| `Rules.CountOfEmptyBoard` | src/tictactoe.jsx:4 | The all-empty initial board counts no marks for either player. |
| `Rules.CountOfFullBoard` | src/tictactoe.jsx:28 | On a board where every cell holds a mark, the X count plus the O count is the number of cells. |
| `Rules.EmptyBoardHasNoWin` | src/tictactoe.jsx:4 | The all-empty board holds no line for either player and is not full. |
| `Rules.PlaceKeepsOtherLines` | src/tictactoe.jsx:19-20 | Placing one player's mark never completes a line for the other player. |
| `Rules.Other` | src/tictactoe.jsx:32 | The next player always differs from the current one. |
| `Game.MessagesDistinct` | src/tictactoe.jsx:26-34 | The turn, win and tie texts are pairwise different. The turn text and the win text each determine the player they name. |
| `Game.TurnMessage` | src/tictactoe.jsx:34 | The turn text names the player to move: "Player X's turn" for X and "Player O's turn" for O. These are also the texts of lines 7 and 48. |
| `Game.WinMessage` | src/tictactoe.jsx:26 | The win text names the winner: "Player X wins!" for X and "Player O wins!" for O. |
| `Game.TieMessage` | src/tictactoe.jsx:29 | The tie text "It's a tie!" differs from every turn text and every win text. |
| `Game.Initial` | src/tictactoe.jsx:4-8 | The initial state, which reset also restores: a 9-cell all-empty board, X to move, the round on, the turn text for X and no winning cells. |
| `Game.Accepts` | src/tictactoe.jsx:17 | The guard of the click handler. A click passes it exactly when the round is on and the clicked cell is empty (not truthy). A click that passes it implies that the board is not full. |
| `Game.Click` | src/tictactoe.jsx:16-36 | A click after the round has ended, or on an occupied cell, changes nothing: board, player, gameOver, message and winning cells all stay the same. An accepted click puts the mover's mark on the clicked cell and leaves every other cell unchanged. If the new board completes a line of the mover, even a full board, the round ends: the winning cells are the first such line in table order, the message is "Player {mover} wins!", and the current player does not change. If it completes no line and is full, the round ends with "It's a tie!", and the current player and winning cells stay the same. Otherwise the turn flips to the other player, the message becomes "Player {next}'s turn", and the round goes on. |
| `Game.InitialConsistent` | src/tictactoe.jsx:4-8 | The initial state satisfies the reachable-state invariant. |
| `Game.ClickKeepsConsistent` | src/tictactoe.jsx:16-36 | Every click keeps the invariant: X is one mark ahead exactly when X moved last; the player without the turn holds no line; a running round has no line, a free cell and the turn text; a finished round records the detector's line and the win text, or a full board and the tie text. |
| `Game.Step` | src/tictactoe.jsx:171-180 | The component's reaction to one input: a tap on a cell runs the click handler (line 171), and the reset button restores the initial state (line 180). The board keeps 9 cells. |
| `Game.StepKeepsConsistent` | src/tictactoe.jsx:16-50 | A click or a reset keeps the invariant. |
| `Game.PlayKeepsConsistent` | src/tictactoe.jsx:16-50 | Any sequence of clicks and resets keeps the invariant. |
| `Game.ReachableBalanced` | src/tictactoe.jsx:16-50 | In every state reached from the initial state by clicks and resets, the number of X marks equals the number of O marks or exceeds it by one, and at most one player holds a line. |
| `Game.TieEndsOnX` | src/tictactoe.jsx:28-30 | In a reachable state, a tie always comes after X's move: the board has five X marks and four O marks, and X holds the turn. |
| `Game.BeforeLastMoveConsistent` | src/tictactoe.jsx:16-36 | The position used in the next row satisfies the reachable-state invariant. X holds cells 1, 2, 3 and 6, O holds 4, 5, 7 and 8, neither holds a line, cell 0 is free and X is to move. |
| `Game.LastMoveResult` | src/tictactoe.jsx:23-27 | X's click on cell 0 in that position gives the full board, with the top row recorded as the winning cells, the win text for X, the round over, and X still holding the turn. |
| `Game.LastBoardLines` | src/tictactoe.jsx:28-40 | The board after that click is full, and X holds both the top row (table entry 0) and the left column (table entry 3). |
| `Game.WinOnFullBoardTakesFirstLine` | src/tictactoe.jsx:23-30 | From a position that satisfies the invariant, X's ninth mark fills the board and completes both the top row and the left column. The result is a win, not a tie, with winning cells [0, 1, 2] and the text "Player X wins!". |
| `Game.TicTacToe.constructor` | src/tictactoe.jsx:4-8 | The new component holds the initial state, on a fresh board. |
| `Game.TicTacToe.HandleClick` | src/tictactoe.jsx:16-36 | The handler's new state is `Click` of the old state. For an accepted click the board is a fresh array; otherwise the board stays the same array. The invariant is kept. |
| `Game.TicTacToe.Reset` | src/tictactoe.jsx:44-50 | From any field values, valid or not, reset writes back exactly the initial state on a fresh all-empty board: X to move, the round on, "Player X's turn" and no winning cells. The class invariant holds afterwards. |

## Left out

- The rendered markup, the inline style sheet and its animations, and `getCellClassName` (src/tictactoe.jsx:52-190) are presentation and are not modelled.
- React's state scheduling (batched, asynchronous `set…` calls and re-rendering) is not modelled. Each handler call is one atomic update of the fields.
- Clicks on indices outside 0..8 are excluded by the type `CellIndex`. The rendered grid only produces indices 0..8 (src/tictactoe.jsx:166-171), so JavaScript's out-of-range array behaviour is not modelled.
- Computer opponents, difficulty tiers, a scoreboard, and mode or symbol selection do not exist in src/tictactoe.jsx and are not modelled.
- `Game.WinOnFullBoardTakesFirstLine` starts from the position before X's last move, given explicitly. The position is proved to satisfy the reachable-state invariant. A replay of the eight earlier clicks from the initial state is not proved.
