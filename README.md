# Isolation engine: board and search, in Dafny

This project models the decision engine of a two-player Isolation game.
Each player moves a token like a chess queen onto a free cell of a
rows × columns grid. Every cell a token lands on stays blocked for the rest
of the game. A player who is to move and has no legal move loses.

The model has two parts.

- **Board** (`src/board.py`): the grid is a flat row-major list of cell
  codes. The constants are `PLAYER1 = 1`, `PLAYER2 = 2`, `BOX_CLEAR = 4`,
  `BOX_BLOCK = 8` and `BOX_BLOCKED_MASK = 16`. The board also holds the
  active/inactive pair and a position per player, which stays unset until
  that player's first move.
  - `BoardState` gives the board as a value. Every query and the effect of
    a move are functions there.
  - The class `Board.Board` holds the same fields and updates them in
    place. `clear_board` reassigns the cell list. The nested loops of
    `get_free_boxes` and the ray walk of `get_legal_moves` are `while`/`for`
    loops. `make_move` mutates the object. `make_move_copy` copies the
    object, then moves. Each method is proved to compute the corresponding
    `BoardState` function on `Value()`.
  - `MoveLemmas` and `MoveEffects` prove what those functions mean:
    - move generation is exact, in order and duplicate-free;
    - a move changes exactly one cell, swaps the players and blocks one
      more cell.
- **Search** (`src/ai.py`):
  - `Heuristics` holds the four scoring functions with their shared
    terminal contract (±`MAX_SCORE` = ±10000) and their ranges.
  - `Search` states plain negamax, alpha-beta negamax and the "power"
    search as recursive functions over board values. The loop over the
    legal moves becomes an accumulator recursion.
  - `Ai` implements the same three searches as methods over `Board`
    objects. Each method has the loop of the original and branches on a
    fresh copy per move, and each is proved equal to its `Search` function.
  - `SearchLemmas` proves:
    - the sign convention;
    - that every score is an integer;
    - that negamax returns a legal move with the maximal value, the first
      such move on ties;
    - that alpha-beta returns a legal move, and agrees with negamax when
      no cutoff fires;
    - the fallback order of the power search.

`float("-inf")`/`float("inf")` are the constructors `NegInf`/`PosInf` of
`Common.Ext`, and `Lt`, `Le` and `Max` follow Python's `>`, `>=` and `max`
on them. The winner of `is_game_over` (`False` or a player id) is an
`Option<Player>`. The four score functions are the enumeration
`Heuristic`. At a leaf the model follows the code, `src/ai.py:195-200`:
the value is `score_func(board, winner, player)` times the sign, which is
`+1` exactly when `player` is to move.
- On a decided game the score is the winner's, from `player`'s point of
  view. Times the sign, it is from the point of view of the player to move,
  as the negation in the parent expects.
- On an undecided board the heuristics score from the point of view of the
  player to move. Times the sign, the value is from `player`'s point of
  view, so at a leaf where `player` is not to move it is the opposite of
  what the parent's negation expects. The model keeps this as written;
  `SearchLemmas.DepthOneUndecidedChild` states it for a depth-1 search,
  where the root maximises the opponent's own heuristic advantage.

For `score_func1`, `score_func3` and `score_func4` a leaf needs both players
on the board. `Heuristics.ToPlace` counts the first moves still missing
(0, 1 or 2), and a search of `depth` plies runs on boards with at most
`depth` of them (`Search.Searchable`). So an opening board is searchable
from depth 2.

## Model

| member | source | states |
|---|---|---|
| Common.Neg | src/ai.py:210 | negating a score keeps it finite exactly when it was finite |
| Common.Max | src/ai.py:257 | `max(alpha, current)` is at least both arguments and is one of them |
| Common.LtFacts | src/ai.py:212 | `>` on extended scores is a strict total order (irreflexive, asymmetric, total, transitive), and negation is an involution that reverses it |
| Common.LeFacts | src/ai.py:258 | `>=` is transitive, mixes with `>` transitively, and is exactly "not `<`" |
| BoardState.OccupiedCode | src/board.py:133-142 | the code `player \| BOX_BLOCKED_MASK` carries the blocked bit and is never `BOX_CLEAR` |
| BoardState.Offset | src/board.py:110-118 | the flat index of an in-grid cell lies inside the cell list |
| BoardState.OffsetRowMajor | src/board.py:110-118 | the flat index is `x + y * columns` |
| BoardState.OffsetInjective | src/board.py:110-118 | distinct in-grid cells have distinct flat indices |
| BoardState.GameOver | src/board.py:256-268 | the inactive player wins exactly when the active player has no legal move; there is a winner exactly when either player has none; the active player's check comes first |
| BoardState.Blocked | src/board.py:120-131 | definition, no contract of its own: the cell's code has the `BOX_BLOCKED_MASK` bit; see `BoardState.OccupiedCode` and `MoveLemmas.FreeBoxesExact` |
| BoardState.PlayerPos | src/board.py:89-100 | definition, no contract of its own: the recorded position, if any; see `Board.Board.PlayerPosition` |
| BoardState.Initial | src/board.py:35-60 | definition, no contract of its own: the board of `__init__` after `clear_board`; see `MoveEffects.InitialValid` |
| BoardState.FreeInRow | src/board.py:154-156 | definition, no contract of its own: the inner loop of `get_free_boxes`; see `MoveLemmas.FreeInRowMembers` and `MoveLemmas.FreeInRowShape` |
| BoardState.FreeRows | src/board.py:153-156 | definition, no contract of its own: the outer loop of `get_free_boxes`; see `MoveLemmas.FreeRowsMembers` and `MoveLemmas.FreeRowsOrder` |
| BoardState.FreeBoxes | src/board.py:144-158 | definition, no contract of its own: `get_free_boxes`; see `MoveLemmas.FreeBoxesExact` |
| BoardState.Ray | src/board.py:186-196 | definition, no contract of its own: the cells one direction yields; see `MoveLemmas.RayExact` and `MoveLemmas.RayNoDup` |
| BoardState.Rays | src/board.py:182-198 | definition, no contract of its own: the rays of a list of directions, in order; see `MoveLemmas.RaysFacts` |
| BoardState.LegalMoves | src/board.py:160-198 | definition, no contract of its own: `get_legal_moves`; see `MoveLemmas.LegalMovesPlaced`, `MoveLemmas.LegalMovesUnplaced` and `MoveLemmas.LegalMovesFree` |
| BoardState.Apply | src/board.py:200-223 | definition, no contract of its own: `make_move` on the state before; see `MoveEffects.ApplyEffects` |
| MoveLemmas.FreeInRowMembers | src/board.py:154-156 | the inner loop collects exactly the unblocked cells of row `y` among the first `x` columns |
| MoveLemmas.FreeInRowShape | src/board.py:154-156 | those cells lie in row `y`, left to right, at most `x` of them |
| MoveLemmas.FreeRowsMembers | src/board.py:153-156 | the first `y` rows contribute exactly the unblocked cells of those rows |
| MoveLemmas.FreeRowsOrder | src/board.py:153-156 | those cells come row by row, in row-major order |
| MoveLemmas.FreeRowsLength | src/board.py:153-156 | the first `y` rows give at most `y * columns` cells |
| MoveLemmas.FreeBoxesExact | src/board.py:144-158 | `get_free_boxes` returns exactly the unblocked in-grid cells, in strict row-major order, without duplicates, at most `rows * columns` of them |
| MoveLemmas.AlongStep | src/board.py:188-191 | one step, then `k` more, equals `k + 1` steps from the start |
| MoveLemmas.AlongMoves | src/board.py:188-191 | a positive number of unit steps never returns to the start |
| MoveLemmas.RayExact | src/board.py:186-196 | one ray holds exactly the cells `k >= 1` steps along the direction that are in the grid and unblocked, with every cell between them and the start unblocked |
| MoveLemmas.RayNoDup | src/board.py:186-196 | a ray holds no cell twice |
| MoveLemmas.DistinctDirections | src/board.py:182-183 | two different unit directions never reach the same cell from the same start |
| MoveLemmas.RaysFacts | src/board.py:182-198 | the rays along distinct directions hold exactly the queen moves along those directions, without duplicates |
| MoveLemmas.LegalMovesPlaced | src/board.py:160-198 | for a placed player, a cell is a legal move exactly when it is a queen move along one of the 8 directions over unblocked cells; no move repeats, and the player's own cell is never one |
| MoveLemmas.LegalMovesUnplaced | src/board.py:171-178 | for an unplaced player, the legal moves are exactly the free cells, in row-major order |
| MoveLemmas.LegalMovesFree | src/board.py:160-198 | every legal move is an unblocked in-grid cell, and none repeats |
| MoveLemmas.LegalMovesBound | src/board.py:160-198 | there are at most `rows * columns` legal moves |
| MoveEffects.BlockOneMore | src/board.py:142 | blocking an unblocked cell adds exactly one to the number of blocked cells |
| MoveEffects.InitialValid | src/board.py:35-45 | a new board has `rows * columns` cells, all `BOX_CLEAR`; nobody is placed; `PLAYER1` is active and `PLAYER2` inactive; nothing is blocked; the board invariant holds |
| MoveEffects.NoneBlocked | src/board.py:56-60 | a cleared board has no blocked cell |
| MoveEffects.ApplyEffects | src/board.py:200-223 | a move to a free cell keeps the invariant and the grid size. It swaps the players, so that `{active, inactive}` stays `{PLAYER1, PLAYER2}`. The mover now stands on the destination, which holds `mover \| BOX_BLOCKED_MASK`. The other player's position and every other cell are unchanged, no cell is unblocked, and the number of blocked cells grows by exactly one |
| MoveEffects.ApplyKeepsPlaced | src/board.py:214 | a move adds the mover to the set of placed players and removes nobody |
| Board.Board.constructor | src/board.py:35-45 | the new object holds `rows * columns` clear cells, no positions, `PLAYER1` active and `PLAYER2` inactive, and satisfies the invariant |
| Board.Board.CopyOf | src/board.py:237 | the copy holds the same board value |
| Board.Board.ClearBoard | src/board.py:56-60 | the cell list becomes `rows * columns` copies of `BOX_CLEAR` |
| Board.Board.Equals | src/board.py:47-54 | two boards are equal exactly when all their fields are |
| Board.Board.PlayerPosition | src/board.py:89-100 | a position is returned exactly for a placed player; it is the recorded position of that player, an in-grid, blocked cell |
| Board.Board.BlockBox | src/board.py:133-142 | only the cell at `offset(x, y)` changes, to `state \| BOX_BLOCKED_MASK` |
| Board.Board.GetFreeBoxes | src/board.py:144-158 | the nested loops return `FreeBoxes` (row-major free cells; see `FreeBoxesExact`) |
| Board.Board.GetLegalMoves | src/board.py:160-198 | the method returns `LegalMoves` for the given player, or for the active one when none is given; see `LegalMovesPlaced` and `LegalMovesUnplaced` |
| Board.Board.WalkRay | src/board.py:186-196 | the `while` loop appends exactly the ray from `loc` along `(dx, dy)` |
| Board.Board.MakeMove | src/board.py:200-223 | the object afterwards holds `Apply` of its old value (see `ApplyEffects`) and keeps the invariant |
| Board.Board.MakeMoveCopy | src/board.py:225-254 | the receiver is unchanged; the result is a fresh valid board whose value is what `make_move` produces on the same state, hence `Equals` to it |
| Board.Board.IsGameOver | src/board.py:256-268 | the method returns `GameOver` of the board value |
| Scenario.CopyMatchesInPlace | src/board.py:271-295 | in the 3 × 3 game played by `main()`, every destination is free when it is played, and the copy made by `make_move_copy(2, 1)` equals the board after `make_move(2, 1)` |
| Heuristics.ManhattanDistance | src/ai.py:18-31 | the distance is non-negative, is 0 exactly when the points coincide, and is at least each coordinate difference |
| Heuristics.ManhattanSymmetric | src/ai.py:18-31 | the distance is symmetric |
| Heuristics.ScaledInverse | src/ai.py:50-52 | at distance 0 the result is `total + 5`; otherwise it is the integer quotient `total / dist`, within `[0, total]` |
| Heuristics.InvDistToCentre | src/ai.py:34-52 | the centrality lies in `[0, total + 5]` and reaches `total + 5` exactly on the centre cell `(columns // 2, rows // 2)` |
| Heuristics.Score | src/ai.py:62-178 | for every heuristic, a decided game scores `MAX_SCORE` when `winner == player` and `-MAX_SCORE` otherwise, whatever the board |
| Heuristics.CentralityRange | src/ai.py:86-89 | `score_func1` lies in `[-(total + 5), total + 5]` |
| Heuristics.MobilityRange | src/ai.py:114-117 | `score_func2` lies in `[-total, total]` |
| Heuristics.FleeRange | src/ai.py:143-145 | `score_func3` lies in `[0, rows + columns - 2]` |
| Heuristics.ChaseRange | src/ai.py:171-178 | `score_func4` lies in `[0, total + 5]` |
| Heuristics.DistanceInGrid | src/ai.py:18-31 | two in-grid cells are at most `rows + columns - 2` apart |
| Heuristics.ScoreBelowMax | src/ai.py:62-178 | when `rows * columns + 5 < MAX_SCORE`, every non-terminal score lies strictly inside `(-MAX_SCORE, MAX_SCORE)` |
| Heuristics.PlacedScorable | src/ai.py:86-89 | no placement is missing exactly when both players have a position, and then every heuristic can score the board |
| Heuristics.ToPlaceAfterMove | src/board.py:200-223 | a move records the mover's position, so the number of missing placements drops by one, or stays 0 |
| Heuristics.ScorableAfterMove | src/board.py:200-223 | a move keeps both players placed once they are, so a heuristic that could score a board can score its children |
| Search.Leaf | src/ai.py:195-200 | definition, no contract of its own: `sign * score_func(board, winner, player)` with no move; see `SearchLemmas.TerminalValue` and `Ai.LeafResult` |
| Search.Negamax | src/ai.py:181-216 | definition, no contract of its own: `negamax`; see `SearchLemmas.NegamaxBestMove`, `SearchLemmas.NegamaxFinite` and `Ai.Negamax` |
| Search.NegamaxLoop | src/ai.py:202-216 | definition, no contract of its own: the `negamax` loop over the legal moves; see `SearchLemmas.NegamaxLoopIsFirstBest` |
| Search.AbNegamax | src/ai.py:219-261 | definition, no contract of its own: `abnegamax`; see `SearchLemmas.AbMoveLegal`, `SearchLemmas.AbMatchesNegamax` and `Ai.AbNegamax` |
| Search.AbLoop | src/ai.py:243-261 | definition, no contract of its own: the `abnegamax` loop with its cutoff; see `SearchLemmas.AbLoopShape`, `SearchLemmas.AbLoopMatches` and `Ai.AbMoves` |
| Search.PowerAbNegamax | src/ai.py:264-308 | definition, no contract of its own: `power_abnegamax`; see `SearchLemmas.PowerKeepsResult`, `SearchLemmas.PowerFallback`, `SearchLemmas.PowerAllLosing` and `Ai.PowerAbNegamax` |
| Search.Retry | src/ai.py:300-306 | definition, no contract of its own: the retry loop from a depth down to 1; see `SearchLemmas.RetryStopsAt` and `SearchLemmas.RetryAllLosing` |
| Search.Child | src/board.py:225-254 | the board after a legal move is `Apply` of the old one, and a search of `depth` plies can go on from it with `depth - 1` |
| Search.SearchableToPlace | src/ai.py:195-200 | a search of `depth` plies can run on a valid board exactly when the heuristic is `score_func2` or at most `depth` placements are missing, so every undecided leaf can be scored |
| Search.SearchableDeeper | src/ai.py:300-302 | a board searchable at some depth is searchable at every greater depth, so the retries of `power_abnegamax` can run once depth 1 can |
| Search.Moves | src/ai.py:206 | the moves the search explores are all free cells |
| Search.NegamaxLoopStep | src/ai.py:206-214 | proof step, the definition unfolded once: one iteration of the `negamax` loop replaces the best only when the negated child score is strictly larger, then goes on with the remaining moves |
| Search.AbLoopStep | src/ai.py:247-259 | proof step, the definition unfolded once: one iteration of the `abnegamax` loop does the same, raises `alpha` to `max(alpha, current)`, and stops once `alpha >= beta` |
| Ai.LeafResult | src/ai.py:195-200 | the method returns `(sign * score_func(board, winner, player), None)` |
| Ai.Negamax | src/ai.py:181-216 | the method returns exactly `Search.Negamax` of the board value |
| Ai.NegamaxChild | src/ai.py:207-210 | the method returns the negated `negamax` score of the copy after the move |
| Ai.AbNegamax | src/ai.py:219-261 | the method returns exactly `Search.AbNegamax` of the board value |
| Ai.AbMoves | src/ai.py:243-261 | the loop with its running `alpha` and early `break` returns the `AbLoop` result |
| Ai.AbNegamaxChild | src/ai.py:248-251 | the method returns the negated `abnegamax` score of the copy after the move, searched with the window `(-beta, -alpha)` |
| Ai.PowerAbNegamax | src/ai.py:264-308 | the method returns exactly `Search.PowerAbNegamax` of the board value |
| SearchLemmas.TerminalValue | src/ai.py:195-200 | on a decided game both searches return `(sign * ±MAX_SCORE, None)` at any depth, and the sign is `+1` exactly when `player` is active |
| SearchLemmas.NegamaxFinite | src/ai.py:181-216 | every `negamax` score is an integer, never `±inf` |
| SearchLemmas.NegamaxLoopFinite | src/ai.py:202-216 | a loop that starts from an integer, or from `-inf` with at least one move, ends with an integer |
| SearchLemmas.DepthOneUndecidedChild | src/ai.py:194-210 | at depth 1, a move whose board is undecided is valued at the root's sign times the heuristic of the player to move on that board; when `player` moves at the root this is the opponent's own heuristic advantage |
| SearchLemmas.ChildScores | src/ai.py:209-210 | value `j` is the negated `negamax` score of the child after move `j` |
| SearchLemmas.NegamaxLoopIsFirstBest | src/ai.py:202-216 | the `negamax` loop is the left-to-right scan `FirstBest` over the values of its moves |
| SearchLemmas.FirstBestUpper | src/ai.py:212-214 | the scan ends at least at its start and at least at every value |
| SearchLemmas.FirstBestChoice | src/ai.py:212-214 | the scan either returns its start unchanged, or returns a move `k` with its value, which beats the start and every earlier value |
| SearchLemmas.BeatsRunningBest | src/ai.py:212-214 | a score beating the updated best beats the old best and the current value |
| SearchLemmas.NegamaxBestMove | src/ai.py:181-216 | for `depth > 0` on an undecided board, `negamax` returns a move `k` of `get_legal_moves()` with an integer score equal to its value. No legal move has a larger value, and every earlier move has a smaller one (first-best tie-breaking) |
| SearchLemmas.AbFinite | src/ai.py:219-261 | every `abnegamax` score is an integer, whatever the window |
| SearchLemmas.AbLoopShape | src/ai.py:243-261 | the loop returns its start unchanged or one of its moves with an integer score |
| SearchLemmas.ShapeStep | src/ai.py:247-259 | one iteration, cutting off or not, keeps that shape |
| SearchLemmas.AbLoopFromNegInf | src/ai.py:243-261 | started from `-inf` on at least one move, the loop always returns one of its moves with an integer score |
| SearchLemmas.AbMoveLegal | src/ai.py:219-261 | for `depth > 0` on an undecided board, `abnegamax` returns a move of `get_legal_moves()` with an integer score, for every window |
| SearchLemmas.AbMatchesNegamax | src/ai.py:219-261 | if no node of the tree cuts off while siblings remain, `abnegamax` returns the same score and move as `negamax` |
| SearchLemmas.AbLoopMatches | src/ai.py:246-261 | the same holds for the loops over the moves of one node |
| SearchLemmas.MatchStep | src/ai.py:247-259 | when the first child scores agree and no cutoff comes early, one step of both loops keeps them equal |
| SearchLemmas.AbDepthOneFullWindow | src/ai.py:219-261 | a one-ply search with the window `(-inf, +inf)` never cuts off, so `abnegamax` equals `negamax` on it |
| SearchLemmas.FullWindowLoop | src/ai.py:246-259 | with `beta = +inf` and a finite `alpha`, no one-ply loop cuts off |
| SearchLemmas.RetryLosingStep | src/ai.py:302-306 | proof step, the definition unfolded once: a proven loss at depth `i` sends the retry loop to depth `i - 1` |
| SearchLemmas.RetryStopsAt | src/ai.py:302-306 | the retry loop from depth `i` returns the depth-`k` result when that result is not a proven loss and every depth in `(k, i]` is one |
| SearchLemmas.RetryAllLosing | src/ai.py:302-306 | when every depth down to 1 is a proven loss, the retry loop returns the depth-1 result, or the last result when no depth is left |
| SearchLemmas.PowerRetries | src/ai.py:298-302 | proof step, the definition unfolded once: after a full-depth proven loss, `power_abnegamax` is the retry loop from `depth - 1` |
| SearchLemmas.PowerKeepsResult | src/ai.py:296-308 | when the full-depth result is not a proven loss, `power_abnegamax` returns it unchanged |
| SearchLemmas.PowerFallback | src/ai.py:298-308 | after a full-depth proven loss, `power_abnegamax` returns the result at the deepest shallower depth that is not a proven loss |
| SearchLemmas.PowerAllLosing | src/ai.py:298-308 | for `depth >= 1`, when every depth from 1 to `depth` is a proven loss, `power_abnegamax` returns the depth-1 result |
| SearchLemmas.PowerDepthZero | src/ai.py:296-308 | at depth 0 the retry range is empty and `power_abnegamax` returns the original depth-0 result, a proven loss or not |

## Left out

- BoardState.State: `rows` and `columns` are `nat`, so a board with negative dimensions, which `Board(rows, columns)` at `src/board.py:35-45` would accept, is outside the model; no caller in the source builds one.
- `src/renderer.py`, `src/main.py` and `src/replay.py` are not part of this model: they hold drawing, input, timing and file I/O.
- `gen_random_blocked_boxes` (`src/board.py:62-75`) is not modelled because it draws random numbers. The board invariant and the lemmas hold for any cell list, so pre-blocked cells are covered as arbitrary initial contents.
- The read-only properties `active_player`, `inactive_player`, `board_list`, `player1_pos` and `player2_pos` are the fields of `Board.Board` themselves.
- `box_blocked` and `offset` are the functions `BoardState.Blocked` and `BoardState.Offset`, not methods.
- The pickle deep copy in `make_move_copy` is the constructor `Board.Board.CopyOf`. It copies the cell sequence and the position map as values; the serialization is not modelled.
- Heuristics.ScaledInverse: models `int((1.0 / dist) * total)` as the exact integer quotient `total / dist`. Floating-point rounding can make the original one smaller: on a 2 × 49 board at distance 49 the product is `1.9999999999999998`, truncated to 1, where the quotient is 2.
- Board.Board.MakeMove: requires the destination to be inside the grid. The original only asserts that the flat cell at `x + y * columns` is unblocked. Python's negative indices and row wrap-around would let an out-of-grid coordinate alias another cell; that aliasing is not modelled. The same holds for `Board.Board.MakeMoveCopy` and `Board.Board.BlockBox`.
- Heuristics.Score: requires both players to be placed for `score_func1`, `score_func3` and `score_func4` on an undecided board. In the original, `player_pos` returns `None` for an unset position, and unpacking it raises an exception: at `src/ai.py:48` for `score_func1`, reached through `src/ai.py:87-88`, and at `src/ai.py:144-145` and `src/ai.py:173-174` for `score_func3` and `score_func4`. The searches call it only at leaves, so they only ask that at most `depth` placements are missing (`Search.Searchable`).
- Search.Negamax: requires that every leaf `depth` plies down could be scored, for `score_func1`, `score_func3` and `score_func4`. The original fails only at an undecided leaf with an unplaced player. A tree whose shallow leaves are all decided games runs in the original but is outside the model; a decided root with more placements missing than `depth` is one such tree. The same holds for `Search.AbNegamax`, `Ai.Negamax` and `Ai.AbNegamax`.
- Search.PowerAbNegamax: after a full-depth proven loss, requires the board to be searchable at depth 1, that is, the player who moved last is placed, for `score_func1`, `score_func3` and `score_func4`. The original retries anyway and fails only if a depth-1 leaf is undecided with an unplaced player. The same holds for `Ai.PowerAbNegamax`.
- Heuristics.ScoreBelowMax: requires `rows * columns + 5 < MAX_SCORE`. The original promises no bound; larger boards could make a non-terminal score reach `±MAX_SCORE`.
- SearchLemmas.AbMatchesNegamax: covers only trees in which no cutoff fires. The general alpha-beta guarantee (the value is exact when it falls strictly inside the window) is not stated.
- `player_pos` asserts that the player is one of the two keys. `Player` has only two values, so that assertion cannot fail in the model.
