# Tic-tac-toe bot: a verified model

The project models a Python tic-tac-toe bot and its exhaustive test driver.
It covers:

- the board;
- the rotation adapter `try_rotated`;
- the terminal test `find_winner`;
- the nine move strategies, tried in priority order by `pick_best_move`:
  opening, win, block, fork, block_fork, center, opposite_corner,
  empty_corner and empty_side;
- the fork table built by `generate_forks`;
- the legality-checked move `apply_move`;
- the turn loop `play`;
- the test driver in `test.py`, which walks the tree of the opponent's
  replies until every game has been played.

Board values are `Grid`s: nine integers in row-major order. The board a game
changes in place is a 3x3 `array2<int>`, and `Board.Snapshot` reads it as a
`Grid`.

Code that changes state step by step is written as methods with loops:
`apply_move`, `get_all_wins`, `get_all_forks`, `block_fork`,
`generate_forks`, `pick_best_move`, `play` and the driver. Each method is
proved equal to a specification function. Lemmas then prove what the source
promises about those functions: which cells a detector reports, that every
answer is an unplayed cell, that rotating does not change the result, and
that the driver terminates.

Modules, one per part of the program: `Board`, `Rotation`, `Winner`,
`Wins`, `ForkTable`, `Forks`, `Scan`, `Heuristics`, `Opposite`, `Selector`,
`Game` (the `play` loop) and `Explorer` (`test.py`).

Where the name of a function and its code disagree, the model follows the
code. `opposite_corner` does not answer the corner opposite the opponent's
corner. Its mask selects the two sides next to that corner, and the model
proves that this is what it answers (`Opposite.OppositeCornerSpec`,
`Opposite.TopLeftAnswersTop`).

## Model

| member | source | states |
|---|---|---|
| Board.PositionToArray | tictactoe.py:37-42 | a number 1..9 names the board cell whose row-major number is that number; a pair is passed through |
| Board.PositionToArrayInjective | tictactoe.py:37-42 | different numbers 1..9 name different cells |
| Board.Place | tictactoe.py:335 | the written cell holds the new value and every other cell is unchanged |
| Board.PlaceCounts | tictactoe.py:332-336 | marking an unplayed cell removes exactly one unplayed cell, adds one mark of the player and leaves the other player's count alone |
| Board.WhereSpec | tictactoe.py:44-48 | get_positions_by_item (`Where`) finds exactly the cells holding the item, each once, in increasing row-major order (numpy.where's order) |
| Board.ApplyMove | tictactoe.py:332-336 | TicTacNo exactly when the named cell is already played (`IsUnplayed`, is_unplayed at tictactoe.py:50-52, fails), and then the board is unchanged; otherwise the board is the old one with the player's mark on that cell |
| Rotation.Rot1At | tictactoe.py:60 | one numpy.rot90 turn puts on each cell the value of the cell one counter-clockwise quarter-turn away |
| Rotation.Rotate | tictactoe.py:60 | numpy.rot90(board, k) puts on each cell c the value of the original cell Unrotate(c, k) |
| Rotation.UnrotateInverse | tictactoe.py:65 | turning a cell back k times and then 4 - k times, in either order, is the identity |
| Rotation.RotateInverse | tictactoe.py:65 | rot90 by k and then by 4 - k gives back the board |
| Rotation.OriginalMatchByMarker | tictactoe.py:62-66 | get_original_match's marker trick finds exactly one cell, the original cell of the match, which holds on the board what the match holds on the rotated board |
| Rotation.MapBack | tictactoe.py:72-74 | a list of matches is mapped back element by element, keeping its length and order |
| Rotation.InMapBack | tictactoe.py:72-74 | a cell is among the mapped-back matches exactly when its rotated image is among the matches |
| Rotation.MapBackAppend | tictactoe.py:72-74 | mapping back distributes over concatenation |
| Rotation.Normalised | tictactoe.py:59 | (4 + k) % 4 is a rotation count below 4 |
| Rotation.TryRotated | tictactoe.py:54-78 | no rotation runs the selector on the board itself; otherwise a scalar or no-match passes through unchanged, and each coordinate returned is replaced by its original cell, Unrotate of it (MapBack for a list), which holds the same value |
| Rotation.ScanLinesAreLines | tictactoe.py:87-98 | the two match_board passes together scan each of the eight lines exactly once |
| Rotation.TurnedBoardLines | tictactoe.py:87-98 | the pass on the board turned once scans columns 2, 1, 0 and the anti-diagonal of the board itself |
| Rotation.LineValuesRotated | tictactoe.py:60 | a line read on the rotated board reads like its mapped-back line on the board |
| Winner.MatchRow | tictactoe.py:81-85 | match_row answers exactly when the three values are one value other than UNPLAYED, and answers that value |
| Winner.FirstComplete | tictactoe.py:87-96 | match_board answers a scalar player holding a whole scanned line, or no match exactly when no scanned line is complete |
| Winner.FirstCompleteRotated | tictactoe.py:98 | scanning the rotated board is scanning the mapped-back lines of the board |
| Winner.TurnedPass | tictactoe.py:98 | try_rotated(match_board, board) scans the columns and the anti-diagonal |
| Winner.FindWinnerLines | tictactoe.py:98 | the direct `MatchBoard` pass (match_board) and the turned pass find a winner exactly when some player holds one of the eight lines |
| Winner.FindWinner | tictactoe.py:80-103 | a player who has completed a line; otherwise 0 exactly on a full board; otherwise None exactly while no line is complete and a cell is unplayed |
| Wins.LineWinIsThreat | tictactoe.py:109-113 | match_row reports a cell exactly when it is the one unplayed cell of a line whose other two cells hold the player |
| Wins.InLinesWins | tictactoe.py:115-124 | the accumulated matches are the union of the per-line matches |
| Wins.LinesWinsAppend | tictactoe.py:115-124 | accumulating over two runs of lines concatenates their matches |
| Wins.LinesWinsRotated | tictactoe.py:128 | the matches on the rotated board, mapped back, are the matches of the mapped-back lines |
| Wins.LineWinRotated | tictactoe.py:128 | one line's match on the rotated board, mapped back, is the match of its mapped-back line |
| Wins.AllWinsByTryRotated | tictactoe.py:126-129 | get_all_wins is the direct pass followed by the mapped-back pass of try_rotated |
| Wins.AllWinsAreThreats | tictactoe.py:108-129 | get_all_wins (`AllWins`) reports exactly the cells that complete a line in which the player holds the other two cells |
| Wins.MatchBoardWins | tictactoe.py:115-124 | the loop over the rows and then the diagonal accumulates the matches of the reference definition |
| Wins.GetAllWins | tictactoe.py:126-129 | the two passes, with the turned pass mapped back, compute the reference list |
| Wins.WinBySpec | tictactoe.py:131-138 | win_by_player (`WinBy`) answers None exactly when the player has no line one move from completion, and otherwise an unplayed cell completing one |
| Wins.WinByPlayer | tictactoe.py:131-141 | the first match of get_all_wins, or None |
| ForkTable.Spot | tictactoe.py:161 | position number p names the cell of row-major index p - 1 |
| ForkTable.MarksAt | tictactoe.py:159-161 | the marked copy of the empty board holds 1 exactly on the marked cells |
| ForkTable.MarkBoard | tictactoe.py:159-161 | the marking loop builds that marked board |
| ForkTable.PreforkIsPossible | tictactoe.py:144-155 | prefork_is_possible holds exactly when some ordered pair of the three marks, alone on a board, leaves at most num_wins - 2 completions |
| ForkTable.NoPairSuffices | tictactoe.py:146 | the six ordered pairs of itertools.permutations cover every pair of different marks |
| ForkTable.Mask | tictactoe.py:166-170 | the mask keeps the marks and the two chosen completions and writes -1 on every other unplayed cell |
| ForkTable.MaskAfterAll | tictactoe.py:168-170 | visiting every unplayed cell in order produces the mask |
| ForkTable.BuildMask | tictactoe.py:167-170 | the masking loop builds the mask |
| ForkTable.CandidateShape | tictactoe.py:157-170 | every mask considered has 1 on exactly the three marks, 0 on exactly the two chosen completions (each completing a line with two marks) and -1 elsewhere |
| ForkTable.IsUnique | tictactoe.py:172-178 | is_unique holds exactly when no rotation of the mask equals a stored fork |
| ForkTable.UniqueAppend | tictactoe.py:179-180 | appending a mask none of whose rotations is stored keeps the stored masks pairwise different under every rotation |
| ForkTable.TableAppend | tictactoe.py:179-180 | such an append keeps the table invariant and stores the mask |
| ForkTable.AddIfUnique | tictactoe.py:172-180 | the table keeps its invariant, covers the mask under some rotation, and grows by that mask or not at all |
| ForkTable.AddPairsWith | tictactoe.py:166-180 | the inner combinations loop covers every pair (i, j) with j > i |
| ForkTable.AddCombinations | tictactoe.py:166-180 | every pair of completions of the marks yields a mask that the table covers |
| ForkTable.ConsiderTriple | tictactoe.py:158-180 | one permutation of three marks leaves every candidate mask it yields covered |
| ForkTable.GenerateForks | tictactoe.py:143-181 | the table holds only fork masks, no two equal under any rotation, and covers every candidate mask under some rotation |
| Forks.Values | tictactoe.py:189-190 | board[numpy.where(...)] lists the board's values on the given cells, in their order |
| Forks.UniquesSingleton | tictactoe.py:189 | a value set equals {v} exactly when the list is non-empty and all v |
| Forks.FitsZeros | tictactoe.py:189-193 | the mask fits exactly when it has a 0-cell, all its 0-cells are unplayed, and its 1-cells hold the player twice and UNPLAYED once |
| Forks.MaskMatchCell | tictactoe.py:186-196 | a mask reports at most one cell, does so exactly when it fits, and that cell is one of its 1-cells and unplayed |
| Forks.InReports | tictactoe.py:186-196 | the reports of the table are the union of the reports of its masks |
| Forks.MatchBoardForks | tictactoe.py:186-196 | the loop over the table accumulates the reference reports |
| Forks.AllForksByTryRotated | tictactoe.py:199-200 | each pass of the loop is try_rotated of match_board with that rotation |
| Forks.InPasses | tictactoe.py:198-201 | a cell is reported exactly when some mask reports its image on some rotation |
| Forks.GetAllForks | tictactoe.py:198-201 | the four rotation passes compute the reference list |
| Forks.AllForksSpec | tictactoe.py:185-201 | get_all_forks (`AllForks`) reports exactly the mapped-back cells that some mask reports on some rotation; each is unplayed and lies on a 1-cell of a mask fitting that rotation |
| Forks.AllForksUnplayed | tictactoe.py:185-201 | every reported fork cell is unplayed |
| Forks.ForkBy | tictactoe.py:203-210 | fork_by_player answers None exactly when no fork cell is reported, and otherwise a reported, unplayed cell |
| Forks.ForkByPlayer | tictactoe.py:203-212 | the first reported cell, or None |
| Forks.BlockFork | tictactoe.py:214-237 | block_fork answers None exactly when the opponent has no fork cell |
| Forks.BlockForkUnplayed | tictactoe.py:214-237 | every answer of block_fork is unplayed |
| Forks.BlockForkForcing | tictactoe.py:217-226 | when some unplayed cell forces a block outside the opponent's fork cells, block_fork answers the row-major first such cell |
| Forks.BlockForkFallback | tictactoe.py:228-236 | otherwise it answers one of the opponent's fork cells, one that leaves no fork whenever such a cell exists |
| Forks.ForcingStep | tictactoe.py:218-226 | one pass of the first loop returns the first forcing cell or rejects the current one |
| Forks.ForcingSearch | tictactoe.py:217-226 | the first loop answers the first forcing cell in order, or None |
| Forks.DefusingStep | tictactoe.py:229-233 | one pass of the second loop returns the first defusing cell or rejects the current one |
| Forks.DefusingSearch | tictactoe.py:229-233 | the second loop answers the first defusing fork cell in order, or None |
| Forks.BlockForkSearch | tictactoe.py:214-237 | block_fork as run: the two loops and the fallback compute the reference answer |
| Heuristics.Center | tictactoe.py:239-243 | center answers the middle cell exactly when it is unplayed |
| Heuristics.FirstUnplayed | tictactoe.py:272-276 | the first unplayed cell of a list, None exactly when all are played |
| Heuristics.OrbitsAreCornersAndSides | tictactoe.py:269-285 | the top-left corner turned 0..3 times visits the corners TL, TR, BR, BL; the top side visits the sides top, right, bottom, left |
| Heuristics.CellReply | tictactoe.py:273 | turn i of a one-cell scan answers the i-th cell of its orbit when that cell is unplayed |
| Heuristics.CellScan | tictactoe.py:268-276 | scanning one cell by rotation finds the first unplayed cell of its orbit |
| Heuristics.EmptyCornerSpec | tictactoe.py:266-276 | empty_corner's rotation scan (`EmptyCornerScan`) answers the first unplayed corner in the order TL, TR, BR, BL |
| Heuristics.EmptySideSpec | tictactoe.py:278-288 | empty_side's rotation scan (`EmptySideScan`) answers the first unplayed side in the order top, right, bottom, left |
| Heuristics.WhereEmpty | tictactoe.py:291-293 | get_positions_by_item is empty exactly when the item does not occur |
| Heuristics.OpeningSpec | tictactoe.py:290-307 | opening (`Opening`) gives up once the bot holds any cell; before the bot's first move it answers the first free corner when the opponent has not played (the top-left corner on an empty board), the center when free after an opponent corner, the first free corner after the opponent's center, and the center when free after an opponent side |
| Heuristics.OpeningUnplayed | tictactoe.py:290-307 | every answer of opening is unplayed |
| Heuristics.FallbacksCover | tictactoe.py:239-288 | on a board with an unplayed cell, center, empty_corner or empty_side answers |
| Scan.ReplyAt | tictactoe.py:261 | try_rotated with i turns answers the selector's coordinate on the board turned i times, mapped back |
| Scan.ScanRotations | tictactoe.py:260-264 | the rotation loop answers the first rotation whose reply is a coordinate, or None |
| Opposite.AdjacentIsMask | tictactoe.py:246-256 | the opposite_corners mask reads, in numpy.where order, as the top side and then the left side |
| Opposite.AdjacentSidesAre | tictactoe.py:256-257 | on the board turned for corner k, the mask's cells are the two sides next to corner k |
| Opposite.FirstUnplayedRotated | tictactoe.py:254-257 | the first unplayed mask cell on the turned board maps back to the first unplayed of the mapped-back cells |
| Opposite.OppositeReply | tictactoe.py:252-261 | turn k of the scan answers for corner k: a free side next to it when the opponent holds it |
| Opposite.OppositeCornerScanSpec | tictactoe.py:245-264 | opposite_corner's rotation scan (`OppositeCornerScan`) answers corner by corner in the order TL, TR, BR, BL |
| Opposite.OppositeCornerSpec | tictactoe.py:245-264 | every answer is an unplayed side next to a corner the opponent holds |
| Opposite.TopLeftAnswersTop | tictactoe.py:246-257 | with the opponent on the top-left corner and the top side free, the answer is the top side, whatever the opposite corner holds |
| Selector.FirstAnswer | tictactoe.py:323-326 | the answer of the first strategy that answers, None exactly when none answers |
| Selector.FirstAnswerAt | tictactoe.py:323-326 | the first strategy to answer decides |
| Selector.StrategyUnplayed | tictactoe.py:309-319 | each of the nine strategies answers None or an unplayed cell |
| Selector.PickBestMoveUnplayed | tictactoe.py:321-330 | on a board with an unplayed cell some strategy answers, so pick_best_move (`PickBestMove`) never reaches the random fallback, and its move is unplayed |
| Selector.PickBestMoveFull | tictactoe.py:328-330 | on a full board nothing answers and random.choice has nothing to choose: `PickBestMove` is None |
| Selector.BestMove | tictactoe.py:321-330 | the loop over best_moves, then the fallback, computes the reference answer |
| Game.TurnOrder | tictactoe.py:374-376 | the sort puts first_player first when it names a player; otherwise the order stays [BOT, OPPONENT] |
| Game.NextPlayer | tictactoe.py:408 | the turn passes to the other player |
| Game.BotTurn | tictactoe.py:370 | the bot plays pick_best_move's answer, an unplayed cell, and the board gains exactly that mark |
| Game.OpponentTurn | tictactoe.py:371 | the opponent's chosen cell is played when unplayed; otherwise TicTacNo and the board is unchanged |
| Game.MoveAlternates | tictactoe.py:396-408 | a legal move keeps the alternation of the counts with the turn passed on, and uses up one unplayed cell |
| Game.BlankStart | tictactoe.py:393-394 | the fresh board is undecided and alternated for the first player |
| Game.NewBoard | tictactoe.py:394 | NEW_BOARD.copy() is a fresh 3x3 board equal to NEW_BOARD (all cells UNPLAYED), undecided and ready for the first player |
| Game.Turn | tictactoe.py:397-398 | the bot plays pick_best_move's cell, which is unplayed, and the board is the old one with BOT on it; the opponent's named cell is played when unplayed; only the opponent can move illegally, and then the board is unchanged; a legal move keeps the alternation, uses up a cell, and find_winner judges the new board |
| Game.Play | tictactoe.py:354-412 | the game ends with find_winner's verdict on the final board, or with the opponent's illegal move on an undecided board; the first player has made as many moves as the second, or one more |
| Explorer.ArrayToPosition | test.py:12-16 | a board cell becomes its number 1..9; a number is passed through |
| Explorer.NumberRoundTrip | test.py:12-16 | array_to_position undoes position_to_array on 1..9 |
| Explorer.CellRoundTrip | test.py:12-16 | position_to_array undoes array_to_position on board cells |
| Explorer.Numbers | test.py:19 | the position numbers of the cells, in order |
| Explorer.FirstAvailable | test.py:18-28 | get_first_available answers the first position whose child is missing or not exhausted, None exactly when there is none |
| Explorer.InspectedGrows | test.py:20-25 | inspecting (`Inspected`, the tree get_first_available leaves) keeps every node and flag and adds only unexhausted children of inspected positions |
| Explorer.InspectedChoice | test.py:18-28 | the chosen child exists and is live; with no choice the tree is unchanged |
| Explorer.InspectedAt | test.py:20-27 | when ps[i] is the first live child, it is chosen and at most its child is created |
| Explorer.InspectedNone | test.py:20-28 | with no live child, nothing is chosen or changed |
| Explorer.AvailableSpec | test.py:33 | the available numbers name unplayed cells, and there is one while a cell is unplayed |
| Explorer.OpponentSpec | test.py:31-40 | opponent_move_func's choice (`OpponentChoice`) is an unplayed cell whose child exists in its new tree (`OpponentTree`); the tree only grows; the node is flagged exactly when no child is live |
| Explorer.OpponentTreeWellFormed | test.py:31-40 | the move keeps the tree rooted, prefix-closed and bounded |
| Explorer.OpponentProgress | test.py:31-40 | the move keeps the walk's progress since the game began |
| Explorer.Universe | test.py:49 | every bounded path lies in one finite set, which bounds the number of exhausted nodes |
| Explorer.FlagGrows | test.py:52 | flagging the last node of a game grows the tree and, if that node was live, adds an exhausted node |
| Explorer.BotMove | tictactoe.py:370 | the bot plays pick_best_move's cell, which is unplayed; the board is the old one with BOT on that cell, one unplayed cell fewer |
| Explorer.Tree.constructor | test.py:45-48 | a fresh unexhausted root with the cursor on it |
| Explorer.Tree.GetFirstAvailable | test.py:18-28 | the loop computes get_first_available's choice and tree, keeping the tree well formed |
| Explorer.Tree.Take | test.py:21-25 | the child is looked up, created unexhausted if missing |
| Explorer.Tree.Choose | test.py:33-37 | the choice and the new tree of opponent_move_func, the node flagged when no child is live |
| Explorer.Tree.OpponentMove | test.py:31-40 | the choice is played for OPPONENT and the cursor descends to its child |
| Explorer.Tree.WalkMove | test.py:31-40 | opponent_move_func's choice, an unplayed cell, gets OPPONENT's mark, the tree becomes OpponentTree and the cursor descends to the chosen child; progress and the depth bound are kept and a cell is used up |
| Explorer.Tree.Turn | tictactoe.py:396-398 | the bot's turn plays pick_best_move's cell and leaves the tree alone; the walk's turn plays its choice for OPPONENT, grows the tree and descends; either uses up a cell, keeps progress, and find_winner judges the new board |
| Explorer.Tree.PlayGame | test.py:51 | a game from the root ends with the walk properly extended: it stands on a live node or has flagged a new one |
| Explorer.Tree.ExhaustRoot | test.py:45-52 | the games from one fresh root terminate, with the root exhausted |
| Explorer.Tree.PlayAllGames | test.py:42-52 | both walks, opponent first and then bot first, terminate with their root exhausted |

## Left out

- render_board, the labels and every `print` (tictactoe.py:23-35, 343,
  349-350, 380-391, 400-406, 410-411) are output only.
- default_opponent_move_func (tictactoe.py:355-367) reads from the
  terminal; Game.Play takes the opponent's choice as a function from the
  board to a cell. Its input validation and retry loop are not modelled.
- Game.TurnOrder: random.shuffle for a missing first_player
  (tictactoe.py:377-378) is not modelled. An integer that names neither
  player keeps the order [BOT, OPPONENT], as the sort does.
- Selector.PickBestMove: on a full board random.choice raises IndexError
  on the empty list (tictactoe.py:330); the model answers None instead.
- Selector.BestMove: random.choice (tictactoe.py:330) is an index
  parameter `choice`. Selector.PickBestMoveUnplayed shows that it is never
  reached during a game.
- Game.Play: the deliberate crash `1/0` when the opponent wins
  (tictactoe.py:404) is not modelled. The game ends with
  Finished(OPPONENT).
- Board.ApplyMove requires an on-board position. numpy's IndexError and
  its negative-index wrap-around are not modelled, because every caller
  passes a number 1..9 or a board cell.
- The fork table is a parameter `forks` of the fork strategies; the source
  builds it once, at import time (tictactoe.py:183). ForkTable.GenerateForks
  proves what the table holds. The strategies' properties hold for any
  table.
- get_positions_by_item's `criteria` argument (tictactoe.py:44-48) is
  never passed, so only the equality test is modelled.
- numpy index tuples become `Cell` values. `position not in win_combination`
  and `block_position not in opponent_forks` are cell membership.
- The bot's claim never to lose is not proved.
- Game.OpponentTurn: a custom opponent function that raises TicTacNo
  becomes the Illegal outcome.
- Explorer.Tree.PlayGame: states the progress of the walk, not the winner
  it returns.
- Explorer.Tree.ExhaustRoot: states only that the root ends exhausted, and
  termination.
- Explorer.Tree.PlayAllGames: states only that the last walk's root ends
  exhausted, and termination.
