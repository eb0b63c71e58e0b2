# Tic-tac-toe with bit-mask boards: a verified Dafny model

This models the game logic of `TicTacToe.java`, a console tic-tac-toe game
for two humans or for a human (X) against the computer (O).

Each player's cells are a 9-bit occupancy mask: bit `i` is cell `i`. The
model covers:

- the eight winning patterns and the win test;
- the occupancy and draw tests;
- placing a move and listing the free cells;
- the normal level's one-move look-ahead;
- the hard level's full minimax search;
- one pass of the play loop: validate, place, test for a win, test for a
  draw, hand over the turn.

The project has three modules:

- `Board` (`board.dfy`): masks, patterns, occupancy, the free-cell list,
  and the game state with its turn function `Turn`.
- `Ai` (`ai.dfy`): the minimax value, the choice rule of `getBestMove`,
  and the normal level's choice.
- `Game` (`game.dfy`): a class `TicTacToe` whose fields are the source's
  static fields.
  - Its methods follow the source's loops and updates: `getFreePositions`
    appends in a loop; `getBestMove` sets and clears each trial bit of
    `playerO`; `minimax` (in `Ai`) sets and clears bits of its parameters
    around each recursive call.
  - Each deterministic method is proved equal to the functions of `Board`
    and `Ai`. The random choice is proved only to return a free cell that
    the play loop accepts. This covers `GetRandomMove`, the fallback of
    `GetNormalAIMove`, and the easy level of `ChooseMove`. The game's
    properties are proved as lemmas about those functions.

Representation choices:

- **Masks are `bv9`.** In the source a mask is a Java `int`, but only the
  low nine bits are ever set. Every index passed to `1 << pos` is in
  0..8: the play loop rejects other moves, and the AI only offers free
  cells. So both masks always lie within `0b111111111`, by construction.
- **Cell indices are `bv8`.** Shifts and masks therefore stay bit-vector
  operations. A move typed by the player is an unbounded `int`, checked
  against 0..8 just as the source does.
- **O maximizes.** `minimax` scores a position 1 if O has won, -1 if X has
  won and 0 for a full board. On any other position it takes the maximum
  (O to move) or the minimum (X to move) over the free cells.
  `Integer.MIN_VALUE` and `Integer.MAX_VALUE` are the starting values of
  the running best. They are kept as the constants `Ai.IntMin` and
  `Ai.IntMax`, and `Ai.MinimaxRange` shows that they never come out.
- **The random fallback is a nondeterministic choice.** `getRandomMove`
  draws an index with `java.util.Random`. The model picks any element of
  the free list, with `:|`.
- **Mode and difficulty are datatypes.** The source stores them as the
  strings `"human"`/`"ai"` and `"easy"`/`"normal"`/`"hard"`. The model
  uses `Game.Mode` and `Game.Difficulty` instead.

## Model

| member | source | states |
|---|---|---|
| Board.IsWin | TicTacToe.java:108-113 | a mask wins exactly when it contains some pattern of `WIN_PATTERNS` (`board & p == p`) |
| Board.WinsFrom | TicTacToe.java:109-112 | the for-each scan from pattern `k` on is true exactly when some pattern at index `k` or later is covered |
| Board.CheckWin | TicTacToe.java:108-113 | the imperative scan with early return yields exactly `IsWin` of its board |
| Board.WinPatternsAreLines | TicTacToe.java:9-13 | there are eight patterns; each is exactly the three distinct bits of one row, column or diagonal of the 3x3 grid |
| Board.CoversLine | TicTacToe.java:110 | containing a line's mask is the same as owning all three of its cells |
| Board.IsWinIffOwnsLine | TicTacToe.java:108-113 | a mask wins exactly when it owns all three cells of some row, column or diagonal |
| Board.IsWinMonotone | TicTacToe.java:108-113 | adding cells to a winning mask keeps it winning |
| Board.ClearUndoesSet | TicTacToe.java:156-158 | clearing a bit just set on a cell not in the mask gives back the original mask |
| Board.AddHas | TicTacToe.java:99-101 | `m \| (1 << pos)` has cell `p` exactly when `m` has it or `p == pos` |
| Board.AddBit | TicTacToe.java:99-101 | the same, for every cell at once |
| Board.AddOccupies | TicTacToe.java:104-106 | after giving `pos` to one player, a cell is occupied exactly when it was before or it is `pos` |
| Board.Occupied | TicTacToe.java:104-106 | `isOccupied`: a cell is taken exactly when either mask has its bit |
| Board.IsFull | TicTacToe.java:115-117 | `isDraw`: the union equals `0b111111111` exactly when every cell is occupied |
| Board.FullIffAllCells | TicTacToe.java:116 | a mask is `0b111111111` exactly when it has all nine cells |
| Board.FreeSet | TicTacToe.java:191-197 | the set of free cells holds exactly the cells occupied by neither player |
| Board.AddFree | TicTacToe.java:97-102 | giving `pos` to either player frees no cell and takes exactly `pos` |
| Board.PlacingRemovesFreeCell | TicTacToe.java:97-102 | giving a free cell to either player removes exactly that cell from the free set, which shrinks strictly (the measure on which `minimax` terminates) |
| Board.FreeBelowSpec | TicTacToe.java:193-195 | after the cells below `i`, the loop's list is exactly the free cells below `i`, strictly ascending |
| Board.FreeCells | TicTacToe.java:191-197 | the list `getFreePositions` returns holds only free cells, every free cell, and is strictly ascending (so it has no duplicates) |
| Board.FullIffNoFreeCells | TicTacToe.java:115-117 | the board is full exactly when the free list is empty |
| Board.Place | TicTacToe.java:97-102 | `placeMove` keeps `xTurn` and the other player's mask |
| Board.PlaceSetsOnlyPos | TicTacToe.java:97-106 | `placeMove(pos)` sets only bit `pos`, in the mover's mask alone, and keeps the turn; afterwards `isOccupied(pos)` holds |
| Board.PlaceMoverMask | TicTacToe.java:97-102 | the mover's mask after placing is the old one with bit `pos` set |
| Board.PlaceOccupies | TicTacToe.java:97-106 | after placing, cell `pos` is occupied |
| Board.TurnRejectsIllegal | TicTacToe.java:74-77 | a turn is refused exactly when the move is out of 0..8 or on a taken cell, and a refused turn changes neither mask nor `xTurn` |
| Board.TurnKeepsValid | TicTacToe.java:74-93 | if no cell is owned by both players before a turn, none is after it; with the constructor's `Valid(State())` this holds in every reachable state |
| Board.TurnOutcome | TicTacToe.java:79-93 | an accepted move sets its bit in the mover's mask only; the game is won exactly when the mover's new mask wins; it is drawn exactly when there is no win but the board is full (the win test comes first); `xTurn` flips only when the game goes on |
| Board.TurnPlaces | TicTacToe.java:79 | an accepted move leaves the board `placeMove` makes |
| Board.TurnTakesOneCell | TicTacToe.java:74-93 | each accepted move removes exactly its own cell from the free cells |
| Board.PlaceTakesOneCell | TicTacToe.java:79 | placing a free cell removes exactly that cell from the free cells |
| Board.CompletingMoveWins | TicTacToe.java:79-86 | a free cell that completes a line for the mover ends the turn with that mover's win |
| Board.ContinueLeavesFreeCell | TicTacToe.java:88-93 | when the game goes on, some cell is still free, so the computer always has a move |
| Ai.ScoreFromIsExtremum | TicTacToe.java:174-188 | the loop from cell `pos` on ends with the max (O) or min (X) of the starting best score and the reply values of the free cells from `pos` on, and equals one of them |
| Ai.ScoreFromStep | TicTacToe.java:175-187 | one pass of the loop: an occupied cell is skipped; a free cell folds its reply value in with `Math.max` or `Math.min` |
| Ai.MinimaxRange | TicTacToe.java:169-189 | on every board `minimax` returns -1, 0 or 1 |
| Ai.ReplyRange | TicTacToe.java:178-186 | the value of every position one free move further on is -1, 0 or 1 |
| Ai.MinimaxIsBestReply | TicTacToe.java:174-188 | when nobody has won and a cell is free, the value is the best reply for the mover: no free cell does better and some free cell reaches it |
| Ai.MinimaxTakesImmediateWin | TicTacToe.java:169-189 | if the mover can complete a line with a free cell, the value is a win for the mover (1 for O, -1 for X) |
| Ai.Minimax | TicTacToe.java:169-189 | the recursive method, which sets and clears bits of its parameters, returns the minimax value of the position; it terminates because each call has one free cell fewer |
| Ai.HeadIsFirstMaximum | TicTacToe.java:160-163 | a head that no later cell beats is the first maximum |
| Ai.TailFirstMaximum | TicTacToe.java:160-163 | a first maximum of the tail that strictly beats the head is the first maximum of the whole list |
| Ai.AllAtMostTail | TicTacToe.java:155-164 | the cells are all at most a bound exactly when the head and all of the tail are |
| Ai.BestMoveFromIsFirstMaximum | TicTacToe.java:155-164 | the loop keeps the running move when no cell beats the running score; otherwise it ends at the first cell of highest score, which beats it |
| Ai.BestMoveFromTakesHead | TicTacToe.java:160-163 | a head that strictly beats the running score becomes the move, and the loop ends at the first maximum |
| Ai.BestMoveIsFirstMaximum | TicTacToe.java:151-167 | `getBestMove` returns -1 exactly when no cell is free; otherwise it returns a free cell whose `minimax(..., false)` score is maximal, and every earlier free cell scores strictly less |
| Ai.BestMoveFindsWin | TicTacToe.java:151-167 | when O can complete a line with a free cell, the hard level returns a free cell of score 1 |
| Ai.FirstCompletingNone | TicTacToe.java:140-147 | one loop of `getNormalAIMove` finds nothing exactly when no listed cell completes a line |
| Ai.FirstCompletingSome | TicTacToe.java:140-147 | otherwise the loop returns a completing cell with no completing cell before it |
| Ai.FirstFreeCompletingNone | TicTacToe.java:140-147 | over the free list, the loop finds nothing exactly when no free cell completes a line |
| Ai.FirstFreeCompletingSome | TicTacToe.java:140-147 | otherwise it returns the smallest free cell that completes a line |
| Ai.NormalChoiceWinsOrBlocks | TicTacToe.java:139-149 | the normal level returns the smallest free cell that wins for O; if there is none, the smallest free cell that would win for X; it falls back to a random cell exactly when neither exists |
| Ai.NormalChoiceIsLegal | TicTacToe.java:139-147 | the cell the normal level picks passes the play loop's validation |
| Ai.NormalWinEndsGame | TicTacToe.java:139-143 | when O is to move and a free cell wins for O, playing the normal level's choice wins the game for O |
| Game.TicTacToe.constructor | TicTacToe.java:25-28 | a new game has both masks empty and X to move, so no cell is owned by both players (the base case of `Board.TurnKeepsValid`) |
| Game.TicTacToe.PlaceMove | TicTacToe.java:97-102 | the fields become the state `Place` computes; nothing else changes |
| Game.TicTacToe.GetFreePositions | TicTacToe.java:191-197 | the appending loop returns exactly `FreeCells`, the ascending list of free cells |
| Game.TicTacToe.GetRandomMove | TicTacToe.java:134-137 | on a board with a free cell, it returns a move the play loop accepts |
| Game.FindCompleting | TicTacToe.java:140-147 | the loop that tries each cell with `isWin` returns exactly the first completing cell |
| Game.TicTacToe.GetNormalAIMove | TicTacToe.java:139-149 | it returns the normal level's choice when there is one; in every case it returns an accepted move |
| Game.TicTacToe.GetBestMove | TicTacToe.java:151-167 | `playerO` is restored, `playerX` and `xTurn` are untouched, and the result is the first free cell of highest score (`BestMove`) |
| Game.BestMoveIsLegal | TicTacToe.java:151-167 | on a board with a free cell, `getBestMove` returns a move the play loop accepts |
| Game.TicTacToe.ChooseMove | TicTacToe.java:60-72 | a human's move is taken as typed; the computer plays a legal move; it is the normal choice at the normal level and `BestMove` at the hard level; the masks end as they began |
| Game.TicTacToe.PlayTurn | TicTacToe.java:74-93 | one pass of the loop leaves exactly the state and outcome of `Turn` |

## Left out

- Console I/O is not modelled: the `Scanner` input, the prompts, the
  screen-clear sequence, `printBoard` and the replay loop of `main`. These
  are presentation only. The number a human types is a parameter of
  `ChooseMove`.
- `setupGame` is left out except for its reset of the board and turn,
  which the constructor models. Its menus become the parameters `mode`
  and `difficulty`.
- The `playGame` loop is modelled one pass at a time (`ChooseMove` and
  then `PlayTurn`), not as the unbounded loop. `Board.TurnTakesOneCell`
  shows that there are at most nine accepted moves.
- `java.util.Random` is not modelled. `GetRandomMove` may return any free
  cell.
- GetRandomMove: requires a free cell. The source's `nextInt(0)` would
  throw on a full board, but the loop never asks the computer to move on
  one (`Board.ContinueLeavesFreeCell`).
- PlaceMove: requires `pos` in 0..8. The only caller validates the move
  first, so the Java shift of an out-of-range index never happens.
- The bits of an `int` above bit 8 are not modelled. No operation ever
  sets them.
- Whole-game facts are not modelled, such as the value of the empty board
  or that the hard level never loses. They would mean evaluating the whole
  game tree.
