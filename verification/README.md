# Tic-tac-toe game core, modelled in Dafny

This project models the game logic of a React tic-tac-toe page (`src/index.js`) with the rendering removed. It proves properties of that model.

The model has two parts:

- **Win detection.** `calculateWinner` scans a fixed table of eight index triples: three rows, three columns, two diagonals. It returns the first triple whose three cells are occupied by the same symbol, or `null` if there is none.
- **The `Game` component's state.**
  - The state has four fields: `history` (board snapshots, each with the index of the move that produced it), `stepNumber`, `order` and `xIsNext`.
  - Three transitions act on it: `handleClick(i)`, `jumpTo(step)` and `changeOrder()`.
  - The page's `render` derives two things from the state: the status line and the move list (move captions and the `(row, column)` of each move).

Modules. `WinDetector` models the `calculateWinner` helper. `Game` models the state and event handlers of the `Game` component. `GameView` models what `Game.render` derives from that state. `Cells` and `Wrappers` hold the value types these share. `Scenarios` plays concrete games through the model.

| file | module | what it holds |
|---|---|---|
| `wrappers.dfy` | `Wrappers` | `Option`, standing for JavaScript's `null` |
| `cells.dfy` | `Cells` | `Cell = Empty \| X \| O`, the 9-cell `Board`, `Square` (0..8), the count of occupied cells |
| `win_detector.dfy` | `WinDetector` | the line table, `CalculateWinner`, and an independent geometric notion of three in a row |
| `game.dfy` | `Game` | `Record`, `State`, the constructor's state, `HandleClick`, `JumpTo`, `ChangeOrder`, the invariant `Valid`, intents and runs |
| `game_view.dfy` | `GameView` | the status (as written and corrected), move coordinates, move-list entries and their order |
| `scenarios.dfy` | `Scenarios` | concrete games: a top-row win, a draw, time travel followed by a new move |

The central invariant is `Valid(s)`:

- The history starts with the empty record.
- Each later record `k` follows record `k-1` by exactly one legal move. The earlier board had no winner. The target cell was empty. Only that cell changed, and it changed to the symbol of the `k`-th mover (X on odd `k`).
- `stepNumber < |history|`.
- `xIsNext == (stepNumber % 2 == 0)`.

The following are proved:

- Every transition preserves `Valid` (for `jumpTo`, when the step is one the move list offers).
- `|history| <= 10` follows from `Valid`.
- The invariant is exact: every valid state is reachable from the constructor's state.

## Model

| member | source | states |
|---|---|---|
| WinDetector.FirstComplete | src/index.js:168-174 | the scan from a table position returns the index of a complete line and every line it skipped is incomplete; it returns none exactly when no line from that position on is complete |
| WinDetector.CalculateWinner | src/index.js:157-175 | a returned line is in the table with its three cells occupied and equal; the result is null exactly when no table line is complete |
| WinDetector.EarliestLineWins | src/index.js:158-172 | when several lines are complete, the one reported comes first in table order (rows, then columns, then diagonals) and every line before it is incomplete |
| WinDetector.WinnerIffThreeInARow | src/index.js:158-167 | the table holds exactly the rows, columns and diagonals: a winner is reported if and only if X or O fills a whole row, column or diagonal |
| WinDetector.LineIsGeometric | src/index.js:158-170 | a table line whose three cells hold the same non-empty symbol is a whole row, column or diagonal of that symbol |
| WinDetector.WinnerSymbolHasThreeInARow | src/index.js:170-171 | the symbol in the first cell of the reported line is not empty and fills a whole row, column or diagonal |
| Game.Initial | src/index.js:48-58 | the constructor's state is valid: one all-empty record, step 0, ascending order, X to move |
| Game.HandleClick | src/index.js:79-97 | a click on a decided board or an occupied cell leaves the state unchanged, and otherwise changes it; an accepted click keeps records 0..stepNumber, drops the rest, and appends one record that equals the displayed board except at `i`, which holds the mover's symbol, with `squareNumber == i`; the new step is the last index and the turn passes |
| Game.AcceptsIffOpenCell | src/index.js:83 | a click goes ahead exactly when neither player has three in a row on the displayed board and the clicked cell is empty; a board that accepts a click is not full |
| Game.JumpTo | src/index.js:61-66 | sets the step and its parity-derived turn; history and order are untouched |
| Game.ChangeOrder | src/index.js:68-77 | flips the order; history, step and turn are untouched |
| Game.HandleClickPreservesValid | src/index.js:79-97 | a click from a valid state yields a valid state (legal alternating moves, step in range, turn equals step parity) |
| Game.JumpToPreservesValid | src/index.js:61-66 | a jump to a listed step keeps the state valid |
| Game.ChangeOrderInvolution | src/index.js:68-77 | toggling twice restores the state, and toggling keeps validity |
| Game.JumpBackRestores | src/index.js:61-66 | time travel is non-destructive: jumping away and back to the displayed step gives the original state |
| Game.AcceptedClickAdvances | src/index.js:86-95 | an accepted click advances the step by one, the mover is the player named by the step parity, and the turn changes hands |
| Game.FullBoardIgnoresClicks | src/index.js:83-85 | on step 9 of a valid game the board is full, so every click is ignored |
| Game.FilledAtStep | src/index.js:82-93 | record `k` of a valid history has exactly `k` occupied cells |
| Game.HistoryAtMostTen | src/index.js:80-94 | a valid history has at most ten records |
| Game.JumpThenClickTruncates | src/index.js:80-94 | jumping to step `k` and then making a move keeps records 0..k, drops the later ones, and appends the board of step `k` with the new move |
| Game.Apply | src/index.js:61-97 | one dispatched intent keeps validity; only a click changes the history; only a toggle changes the order |
| Game.Run | src/index.js:61-97 | a sequence of offered intents keeps validity; the order at the end depends only on the parity of the number of toggles |
| Game.Play | src/index.js:79-97 | the state after a sequence of clicks from the start is valid and in ascending order |
| Game.PlayCountsMoves | src/index.js:86-95 | after `n` accepted clicks from the start, `stepNumber == n`, the history has `n + 1` records, and X is to move exactly when `n` is even |
| Game.MovesOf | src/index.js:88-93 | the clicked squares of a valid history, one per record after the first, in order |
| Game.PlayReplaysHistory | src/index.js:79-97 | replaying the clicked squares of a valid history from the start rebuilds exactly that history, with the latest record displayed |
| Game.LatestClickAppends | src/index.js:80-94 | a click accepted on the latest record only appends one record |
| Game.ValidIsReachable | src/index.js:48-97 | every valid state is reached from the constructor's state by clicks, one jump and possibly one toggle |
| Game.ReachableIsValid | src/index.js:48-97 | every state reached by offered intents from the constructor's state is valid and has at most ten records |
| GameView.Status | src/index.js:104-111 | the status is a winner exactly when the displayed board has a complete line, and the winner fills a row, column or diagonal; it is a draw exactly when there is no line and the history holds ten records |
| GameView.IntendedStatus | src/index.js:104-111 | the corrected status: the draw test uses the displayed step (`stepNumber == 9`) instead of the history length |
| GameView.IntendedStatusIsSound | src/index.js:104-111 | in a valid state, the corrected status is a draw exactly when the displayed board is full without a line; it names a next player exactly when some click is accepted, and every accepted click places that player's symbol |
| GameView.StatusAgreesAtLatestStep | src/index.js:107 | whenever the latest record is displayed, the status as written equals the corrected one |
| GameView.WinnerEndsGame | src/index.js:83-85 | once the status reports a winner, every click is ignored |
| GameView.WinnerIsLastMover | src/index.js:105-106 | in a valid state, a reported winner is the player who made the displayed move, and that move is not the start |
| GameView.NextNamesTheMover | src/index.js:110 | the "next player" of the status is the symbol the next accepted click writes |
| GameView.DrawnAtLatestStepIsFull | src/index.js:107-108 | a draw reported on the latest record means a full board, on which every click is ignored |
| GameView.Coordinates | src/index.js:122-125 | a move's `(row, column)` lies in 0..2 × 0..2 and satisfies `3*row + column == squareNumber`; the start record has none |
| GameView.CoordinatesLocateTheMove | src/index.js:122-125 | in a valid history, only record 0 lacks coordinates; for every other record, they name the one cell that changed from empty to that move's symbol |
| GameView.EntryAt | src/index.js:113-125 | entry `move` jumps to `move`, is captioned "game start" exactly for move 0 and "move #`move`" otherwise, is bold exactly for the displayed step, and carries the coordinates of record `move` |
| GameView.Reverse | src/index.js:130-132 | the reversed list has the same length, with element `j` taken from position `n-1-j` |
| GameView.Moves | src/index.js:113-132 | one entry per record, in history order when ascending and in reverse when descending |
| GameView.ChangeOrderReversesMoves | src/index.js:130-132 | toggling the order reverses the rendered move list |
| GameView.MovesListEveryStepOnce | src/index.js:113-121 | in a valid state, every entry jumps to a listed step, no step is listed twice, and exactly one entry is bold |
| Scenarios.TopRowWin | src/index.js:79-111 | X 0, O 4, X 1, O 7, X 2 ends with line `[0,1,2]` and "Winner: X" |
| Scenarios.DrawnGame | src/index.js:104-108 | X 0, O 1, X 2, O 4, X 3, O 5, X 7, O 6, X 8 fills the board without a line and reports a draw |
| Scenarios.DrawnStatusOnUnfinishedBoard | src/index.js:107 | after that drawn game, `jumpTo(4)` still reports a draw, although cell 8 is free and a click on it is accepted; the corrected status says X is next |
| Scenarios.JumpBackThenMove | src/index.js:80-94 | three moves, `jumpTo(1)`, then a move at 8 leave three records, the old record 2 dropped and O at 8 |

## Left out

- The `Square` and `Board` components and the JSX of `Game.render` (src/index.js:5-43, 113-153) are presentation only. This includes the winner-square highlight and the status and caption text. The status is a datatype (`Winner`, `Drawn`, `Next`) and captions are `GameStart` / `GoToMove(n)`.
- `ReactDOM.render` and the CSS import (src/index.js:1-3, 179) are DOM mounting and styling.
- `setState` is asynchronous and batched in React. Each transition is modelled as one atomic, synchronous update.
- Game.HandleClick: requires `stepNumber < |history|`. `render` reads `history[stepNumber].squares` before any square can be clicked, so an out-of-range step makes the page throw first. The clamping that `slice` would apply in that case is not modelled.
- Game.JumpTo: the source does not check the step. The model is total over natural numbers, and only jumps to listed steps are proved to keep the state valid. The page offers only such steps.
- The click index is a `Square` (0..8): the board dispatches only those indices. JavaScript's behaviour for other indices (reading `undefined`, growing the array) is not modelled.
- The unused argument of `changeOrder(arr)` is dropped.
- `squareNumber`, `order` and the cells are JavaScript values that the page only ever sets to `null`/0..8, `'asc'`/`'desc'` and `null`/`'X'`/`'O'`. They are modelled as `Option<Square>`, `Order` and `Cell`.

## Findings

| source | as written | input that shows it | evidently intended | confidence | as-written member | corrected member |
|---|---|---|---|---|---|---|
| src/index.js:107 | the draw test is `history.length === 10`, which does not depend on the displayed step | play X 0, O 1, X 2, O 4, X 3, O 5, X 7, O 6, X 8 (a draw), then `jumpTo(4)`: the status reads "Game Drawn" on a board with five empty cells, yet clicking cell 8 is accepted and continues the game | report a draw only when the displayed board is full without a line (`stepNumber === 9` in a valid state) | medium, not executed | Scenarios.DrawnStatusOnUnfinishedBoard | GameView.IntendedStatusIsSound |
