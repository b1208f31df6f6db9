# A verified model of the Cachex agents

Cachex is played on an n-by-n hex board. Red tries to join row 0 to row n-1 with a chain of its tokens, and Blue tries to join column 0 to column n-1. A placement captures: the board code checks twelve fixed diamond patterns around the new token, and when a pattern's diagonal cell holds one of the mover's tokens and its two flank cells hold opponent tokens, those two tokens are removed. On its first move Blue may steal Red's opening token instead of placing; the token moves to the transposed cell and becomes Blue's.

The repository holds two agent variants, `pygame` and `pygame2`. Each variant has three parts:

- a `Board` with the occupancy map and the rules;
- a strategy module with the static evaluation, a greedy fill, alpha-beta minimax, a one-move lookahead (`check_game_point` and `attempt_save_life`) and a capture hunt (`go_capture`);
- a `Player` that answers `action()` and `turn()`.

This project models both variants as written and proves properties of them in Dafny.

## Structure

The rules the two variants share are written once, as functions and lemmas:

- `Hex`: coordinates, the six neighbour offsets, the twelve capture diamonds, placement with its captures, `recover_board`, the steal and token counts.
- `Connect`: same-colour chains, reachability, the winner, connected components and the rows or columns a group spans.
- `Queries`: the read-only board methods, with the loops of `valid_capture`, `dfs_search`/`token_crawler`, `end_game`, `capture_danger` and `find_same_tokens`. They read the same in both board files.
- `Groups`: `find_group_tokens` and `find_all_groups`, proved to list exactly the connected components.
- `Scores`: the critical count, `eval` and `cutoff_test`, parameterised by the variant, because the two files differ there.
- `Extended`: integers with plus and minus infinity, the alpha-beta window, and `max(d, key=d.get)`.
- `Search`: the game tree that `get_max_value` and `get_min_value` explore, with its minimax value.
- `Choice`: the root choices of `greedy_proceed`, `minimax` and pygame's `make_action`.
- `Lookahead`: `check_game_point` and both versions of `attempt_save_life`.
- `CaptureScan`: `go_capture` of both variants.

Each variant's own code is modelled in its own form:

- `PygameBoard` and `Pygame2Board` are classes whose methods update `occupied`. Pygame's board also updates the `same_count` ledger.
- `PygameStrategy` is imperative: every trial move is made on the one board and undone with `recover_board`. Every method is proved to leave the board as it found it.
- `Pygame2Strategy` works on `copy.deepcopy` copies. Its methods have no frame on the caller's board.
- `PygamePlayer` and `Pygame2Player`: `Player` classes with `Action` and `Turn`.

Each strategy method is proved to compute a specification function of the shared modules. The properties are proved about those functions.

Randomness becomes a parameter:

- `cells` is the order in which a search loop visits the board. It must list every cell once.
- `draws` is the sequence of `random.randint` pairs.
- `keys` is the insertion order of `occupied`, where the result depends on it.

Where order does not matter (`end_game`, `find_all_groups`), the loops choose keys freely, and the result is proved to be the same for any choice.

## Behaviour of the code as written

The model follows the code where it departs from the game's stated intent:

- **Board centre.** The centre is `(n // 2, n // 2)` in both variants. The even-`n` branch of pygame2's `board_center` computes `(n + 1) // 2`, which equals `n // 2` (`Pygame2Board.Board.BoardCenter`). So the two variants agree for every `n`.
- **`greedy_eval` in pygame.** It compares the `Player` object with `RED`, which is never true, so it always counts Blue's critical tokens (`PygameStrategy.GreedyEval`, `Choice.GreedyBest`).
- **Full-board test in pygame2.** `cutoff_test` and `is_full` compare the token count with `n`, not `n * n` (`Scores.Cutoff`).
- **Critical bonus in pygame2.** `count_critical_tokens` counts the groups whose number of tokens `len(g)` equals the critical length, and it adds the bonus once that length exceeds 1. Pygame counts the groups whose span equals the length, once it exceeds 2 (`Scores.CriticalGroups`, `Pygame2Strategy.CriticalGroupsBySize`).
- **Red's opening in pygame2.** Red redraws only once when the first draw is the centre, and the second draw is not checked. The opening can therefore be the centre (`Pygame2Player.Player.Action`). Pygame's `random_first_move` redraws until it leaves the centre.
- **Inner loop of pygame2's `go_capture`.** It calls `remove` on the list it is iterating over. As a result only the cells at even positions of each neighbour list are ever tried (`CaptureScan.Pygame2FindsEvens`).

## Model

| member | source | states |
|---|---|---|
| Hex.OffsetsAreSixDistinctCells | pygame/board.py:190-197 | the six neighbour offsets name six different cells, none of them the cell itself |
| Hex.AdjacentSymmetric | pygame/board.py:190-197 | b is one of a's six neighbours exactly when a is one of b's |
| Hex.FindNeighbours | pygame/board.py:186-203 | the result holds exactly the in-bounds neighbours of c (owned by `owner` when one is given), without repeats and at most six |
| Hex.FindEmptyNeighbours | pygame/board.py:205-219 | the result holds exactly the in-bounds neighbours of c that hold no token, without repeats |
| Hex.DiamondFiresIff | pygame/board.py:114-125 | a diamond fires exactly when its three cells are on the board and occupied, diag is the mover's and both flanks are the opponent's |
| Hex.CaptureSetMember | pygame/board.py:59-112 | a cell is captured exactly when one of the twelve diamonds around the placed cell fires with it as a flank |
| Hex.CaptureSetSound | pygame/board.py:59-112 | every captured cell is an in-bounds neighbour of the placed cell that holds an opponent token, and never the placed cell |
| Hex.CaptureSetIgnoresOwnCell | pygame/board.py:59-112 | the capture test gives the same answer whatever the placed cell holds |
| Hex.CaptureIdempotent | pygame/board.py:52-57 | once the captured tokens are removed, the same placement captures nothing more |
| Hex.PlaceWellFormed | pygame/player.py:85-90 | a placement on a board cell, with its captures, keeps every token on the board |
| Hex.PlaceRecoverRoundTrip | pygame/board.py:279-290 | a placement at an empty cell with its captures, followed by recover_board with that cell and those captures, restores the board exactly |
| Hex.PlaceRecoverKeep | pygame/board.py:279-290 | recover_board without a cell to drop gives back the captured tokens and keeps the placed one |
| Hex.StealSingleToken | pygame/board.py:32-38 | stealing the single opening token at (r, q) leaves one Blue token at (q, r) and no Red token |
| Hex.TokenCountsSum | pygame/board.py:267-271 | Red's and Blue's token counts add up to the number of tokens |
| Connect.StepIsNeighbour | pygame/board.py:169-171 | one step of the crawl is exactly a move to a cell of find_neighbours(a, p) |
| Connect.ReachesSymmetric | pygame/board.py:162-175 | connectivity over a player's tokens is symmetric |
| Connect.ReachesTrans | pygame/board.py:162-175 | connectivity over a player's tokens is transitive |
| Connect.ClosedHoldsReach | pygame/board.py:148-175 | a set of cells closed under same-colour neighbours holds every cell its members reach, which is why a finished crawl is complete |
| Connect.NoWinnerOnOneCell | pygame/board.py:133-160 | on a 1 x 1 board end_game never reports a winner, because the start cell is never tested against the goal |
| Connect.RedWinMonotone | pygame/board.py:137-140 | a Red win survives any change that keeps Red's tokens, and end_game then reports Red |
| Connect.BlueWinMonotone | pygame/board.py:142-145 | a Blue win survives any change that keeps Blue's tokens |
| Connect.SpanBounded | pygame/strategy.py:127-138 | a group on the board spans between 1 and n rows or columns |
| Queries.ValidCapture | pygame2/board.py:53-107 | valid_capture returns exactly the flank cells of the diamonds that fire |
| Queries.TokenCrawler | pygame/board.py:162-175 | it only adds to explored; true means a goal cell not explored before is reachable; false means the new cells are off the goal edge with all neighbours explored |
| Queries.DfsSearch | pygame/board.py:148-160 | dfs_search is true exactly when a token other than start, on the goal edge, is reachable from start |
| Queries.EndGame | pygame/board.py:133-146 | end_game reports Red when Red joins row 0 to row n-1, otherwise Blue when Blue joins the columns, otherwise nobody |
| Queries.CaptureDanger | pygame/board.py:221-229 | capture_danger is true exactly when the opponent captures by playing some empty neighbour |
| Queries.FindSameTokens | pygame/board.py:257-265 | the player's tokens, each once, in dictionary order |
| Groups.FindGroupTokens | pygame/strategy.py:169-179 | both lists grow by the same new cells: distinct, reachable from start and closed under same-colour neighbours |
| Groups.FindAllGroups | pygame/strategy.py:155-167 | the groups are non-empty, pairwise disjoint and each a whole connected component, and together they hold every token of the player |
| Groups.GroupClosed | pygame/strategy.py:169-179 | a same-colour neighbour of a group's token is in that group |
| Groups.PartitionIsComponents | pygame/strategy.py:155-167 | the cell sets of the groups are exactly the connected components |
| Groups.PartitionElemsInjective | pygame/strategy.py:155-167 | different groups have different cell sets |
| Scores.GroupSpan | pygame/strategy.py:128-138 | the distinct-rows (Red) or distinct-columns (Blue) loop counts the rows or columns the group covers |
| Scores.SpanPrefixAll | pygame/strategy.py:125-141 | the running maximum over all groups is the largest span of any component |
| Scores.CutoffDepthOne | pygame/strategy.py:84-93 | with depth 1 every position is a cutoff |
| Scores.EvalSum | pygame/strategy.py:95-115 | the token differentials of Red's and Blue's eval cancel |
| Scores.CriticalLengthBounds | pygame/strategy.py:124-141 | the critical length lies in 0..n and is 0 exactly when the player has no tokens |
| Scores.CriticalsZeroIff | pygame/strategy.py:117-153 | the critical count is 0 exactly when the player has no tokens (both variants) |
| Scores.CriticalsBonus | pygame/strategy.py:143-153 | in pygame, once the critical length exceeds 2 the count exceeds it: the longest group is itself counted |
| Scores.CriticalsAtMost | pygame/strategy.py:143-153 | the critical count lies between the critical length and that length plus the number of groups |
| Extended.FirstMax | pygame/strategy.py:250 | max(actions, key=actions.get) returns a key of largest value, the first such key in insertion order |
| Extended.ClampInWindow | pygame/strategy.py:268-274 | the alpha-beta window: a clamped value lies in the window, and clamping is idempotent and exact inside it |
| Search.EmptyOrder | pygame/strategy.py:226-232 | the cells a search loop tries are exactly the empty cells of the visiting order, each once |
| Search.MaxFoldStep | pygame/strategy.py:268-274 | one child of get_max_value: raising a to max(a, w) either cuts at b or leaves the clamped value of the remaining cells unchanged |
| Search.MinFoldStep | pygame/strategy.py:292-298 | one child of get_min_value: lowering b to min(b, w) either cuts at a or leaves the clamped value of the remaining cells unchanged |
| Search.DepthOneIsEval | pygame/strategy.py:253-255 | at depth 1 every max and min value is eval |
| Search.MaxFoldIsMax | pygame/strategy.py:257-275 | a max node's value bounds every move's value and, unless there is no move, equals one of them |
| Search.MinFoldIsMin | pygame/strategy.py:281-299 | a min node's value is below every move's value and, unless there is no move, equals one of them |
| Search.ValueIndependentOfOrder | pygame/strategy.py:257-260 | the minimax value of a position does not depend on the random visiting order |
| Choice.GreedyBest | pygame/strategy.py:60-82 | greedy_proceed plays an empty board cell whose placement gives Blue the largest critical count |
| Choice.MinimaxBest | pygame/strategy.py:220-251 | minimax plays an empty board cell of largest recorded value, and a game-point cell is worth +inf |
| Choice.MinimaxDepthOne | pygame2/strategy.py:168-197 | at depth 1 each root value is eval after the placement with its captures, and a game point found by check_game_point is played |
| Choice.PygameActionLegal | pygame/strategy.py:9-47 | every move pygame's make_action picks, greedy, minimax, game point or capture, is an empty cell of the board |
| Lookahead.SaveLifeScanned | pygame/strategy.py:328-352 | pygame's attempt_save_life returns the game point or a cell at or after the scan position |
| Lookahead.SaveLifeEmpty | pygame/strategy.py:333-344 | a cell it returns is empty on the board it started from |
| Lookahead.SaveLifeFallback | pygame/strategy.py:348-352 | it returns the game point only when taking it leaves nobody winning |
| Lookahead.SaveLifeSound | pygame/strategy.py:333-344 | any other cell it returns captures something, and after the captures, with the opponent back on the game point, nobody wins |
| Lookahead.SaveLife2First | pygame2/strategy.py:277-287 | pygame2's attempt_save_life returns the first empty cell, in row-major order, whose captures leave nobody winning |
| Lookahead.SaveLife2Fallback | pygame2/strategy.py:289-294 | when no cell rescues, it returns the game point when taking it leaves nobody winning, and None otherwise |
| Lookahead.SaveLife2Cell | pygame2/strategy.py:273-294 | it returns the game point or an empty cell of the board |
| Lookahead.GamePointQuiet | pygame/strategy.py:301-326 | with no empty cell where either player wins in one move, check_game_point returns 0 |
| Lookahead.GamePointFirst | pygame/strategy.py:305-323 | check_game_point is decided by the first empty cell where either side wins: my win there, else the answer of attempt_save_life |
| Lookahead.GamePointEmpty | pygame/strategy.py:301-326 | every cell check_game_point returns is an empty cell of the board |
| CaptureScan.RemoveAt | pygame/strategy.py:204-206 | list.remove on a list without repeats drops exactly that element |
| CaptureScan.CountFollowUps | pygame/strategy.py:207-210 | the tally of nb rises by the number of other empty neighbours where a capture follows |
| CaptureScan.GoCaptureFrontier | pygame/strategy.py:181-218 | go_capture answers with an empty neighbour of an opponent token, and with a capturing one when its scan found one |
| CaptureScan.GoCaptureNone | pygame/strategy.py:213-218 | without a capturing cell, go_capture answers None exactly when nothing was tallied |
| CaptureScan.GoCaptureBest | pygame/strategy.py:213-216 | otherwise it answers the first key of largest tally, which counts at least one follow-up capture |
| CaptureScan.GoCaptureSafe | pygame/strategy.py:201-210 | in pygame a tallied answer was checked by capture_danger: the opponent cannot capture around it |
| CaptureScan.Pygame2FindsEvens | pygame2/strategy.py:149-160 | pygame2's inner loop, which removes from the list it walks, finds capturing cells only at even positions |
| PygameBoard.SnapshotDetermines | pygame/player.py:92-96 | frozenset(occupied.items()) determines the board, so the ledger counts board configurations |
| PygameBoard.Board.constructor | pygame/board.py:16-23 | a board of size n, n * n cells, no tokens, and an empty ledger |
| PygameBoard.Board.StealUpdate | pygame/board.py:32-38 | the first key moves to its transpose as Blue's, and a single opening token becomes one Blue token at the transposed cell |
| PygameBoard.Board.PlaceUpdate | pygame/board.py:40-44 | the cell now holds the player's token and nothing else changes |
| PygameBoard.Board.Remove | pygame/board.py:46-50 | the cell is emptied; it must hold a token |
| PygameBoard.Board.CaptureUpdate | pygame/board.py:52-57 | exactly the captured cells are emptied |
| PygameBoard.Board.RecoverBoard | pygame/board.py:279-290 | the popped cell is emptied and every listed cell goes to the other colour |
| PygameBoard.Board.BoardCenter | pygame/board.py:273-277 | the centre (n // 2, n // 2) lies on the board for n >= 1 |
| Pygame2Board.Board.constructor | pygame2/board.py:17-20 | a board of size n, n * n cells and no tokens |
| Pygame2Board.Board.StealUpdate | pygame2/board.py:28-32 | the first key moves to its transpose as Blue's |
| Pygame2Board.Board.PlaceUpdate | pygame2/board.py:36-38 | the cell now holds the player's token and nothing else changes |
| Pygame2Board.Board.Remove | pygame2/board.py:41-43 | the cell is emptied; it must hold a token |
| Pygame2Board.Board.CaptureUpdate | pygame2/board.py:47-50 | exactly the captured cells are emptied |
| Pygame2Board.Board.BoardCenter | pygame2/board.py:252-258 | both branches give (n // 2, n // 2), which lies on the board for n >= 1 |
| Pygame2Board.Board.Copy | pygame2/strategy.py:180 | copy.deepcopy gives a fresh board with the same size and tokens |
| PygameStrategy.IndexOf | pygame/strategy.py:139 | groups.index(group): the first position that holds the group |
| PygameStrategy.IndexOfDifferent | pygame/strategy.py:139 | among different groups, groups.index finds each group at its own position |
| PygameStrategy.CriticalSpans | pygame/strategy.py:125-141 | group_crit maps exactly the group indices to their spans, and critical_length is the largest span |
| PygameStrategy.CountAtLength | pygame/strategy.py:144-151 | the bonus loop counts the recorded spans equal to the critical length |
| PygameStrategy.CriticalGroupsCount | pygame/strategy.py:143-151 | the number of recorded spans equal to the critical length is the number of components that span it |
| PygameStrategy.CountCriticals | pygame/strategy.py:117-153 | count_criticals is the critical length, plus the number of groups reaching it once it exceeds 2 |
| PygameStrategy.EvalBoard | pygame/strategy.py:95-115 | eval is the player's critical count plus its token lead |
| PygameStrategy.GreedyEval | pygame/strategy.py:49-58 | greedy_eval is Blue's critical count, whoever the player is |
| PygameStrategy.GreedyTrial | pygame/strategy.py:71-79 | one greedy cell: the score with the player's token there, and the board restored |
| PygameStrategy.GreedyProceed | pygame/strategy.py:60-82 | greedy_proceed returns the greedy choice and leaves the board as it was |
| PygameStrategy.GreedyScan | pygame/strategy.py:64-79 | the trial loop scores exactly the cells that were empty, in visit order, with the greedy scores, and leaves the board unchanged |
| PygameStrategy.TryMove | pygame/strategy.py:263-266 | the board after the placement and its captures, and the captured cells |
| PygameStrategy.UndoMove | pygame/strategy.py:271 | recover_board after TryMove restores the board |
| PygameStrategy.GetMaxValue | pygame/strategy.py:253-275 | at a cutoff eval; otherwise the max value forced into [a, b] (fail-hard alpha-beta); the board is left as it was |
| PygameStrategy.GetMinValue | pygame/strategy.py:277-299 | the min value forced into [a, b], or eval at a cutoff; the board is left as it was |
| PygameStrategy.CaptureAttempt | pygame/strategy.py:335-346 | one capture attempt: whether it captured, whether nobody wins then, and the board restored except for the opponent's token back on the game point |
| PygameStrategy.AttemptSaveLife | pygame/strategy.py:328-352 | the rescue cell of the specification function, and the board left with the opponent or me on the game point |
| PygameStrategy.CheckGamePoint | pygame/strategy.py:301-326 | check_game_point is the first decisive empty cell in row-major order; the board is left as it was |
| PygameStrategy.ScanNeighbours | pygame/strategy.py:193-211 | the inner loop of go_capture over one token's empty neighbours; the board is left as it was |
| PygameStrategy.GoCapture | pygame/strategy.py:181-218 | go_capture returns the capture-hunt answer; the board is left as it was |
| PygameStrategy.RootTrial | pygame/strategy.py:232-243 | a root move is valued by the min value of the board after it; the board is restored |
| PygameStrategy.RootScan | pygame/strategy.py:225-243 | the actions dictionary holds the min value of every empty cell, in visiting order |
| PygameStrategy.Minimax | pygame/strategy.py:220-251 | minimax returns the first cell of largest value after check_game_point, and leaves the board as it was |
| PygameStrategy.MakeAction | pygame/strategy.py:9-47 | make_action follows its branches on total time, board size and evaluation, and leaves the board as it was |
| PygameStrategy.RandomFirstMove | pygame/strategy.py:362-369 | random_first_move returns a draw; it is not the centre on Red's first move, and otherwise it is the first draw |
| Pygame2Strategy.MaxGroupSpan | pygame2/strategy.py:90-104 | critical_length is the largest span over the groups |
| Pygame2Strategy.CountBySize | pygame2/strategy.py:106-110 | the bonus loop counts the groups with exactly L tokens |
| Pygame2Strategy.CriticalGroupsBySize | pygame2/strategy.py:106-110 | the groups of L tokens are the components with L cells |
| Pygame2Strategy.CountCriticalTokens | pygame2/strategy.py:87-112 | count_critical_tokens is the critical length, plus the number of groups of that many tokens once it exceeds 1 |
| Pygame2Strategy.EvalBoard | pygame2/strategy.py:63-83 | eval is the player's critical count plus its token lead |
| Pygame2Strategy.TrialCopy | pygame2/strategy.py:180-186 | a fresh copy with the placement and its captures |
| Pygame2Strategy.GetMaxValue | pygame2/strategy.py:202-224 | at a cutoff eval; otherwise the max value forced into [a, b], every move tried on a copy |
| Pygame2Strategy.GetMinValue | pygame2/strategy.py:226-246 | the min value forced into [a, b], or eval at a cutoff |
| Pygame2Strategy.RescueAttempt | pygame2/strategy.py:280-287 | a copy with the captures made and the opponent back on the game point; nobody wins exactly when the cell rescues |
| Pygame2Strategy.AttemptSaveLife | pygame2/strategy.py:273-294 | the first rescuing cell, else the game point or None; the game point is left empty after a rescue and holds my token otherwise |
| Pygame2Strategy.CheckGamePoint | pygame2/strategy.py:249-271 | check_game_point is the first decisive empty cell in row-major order |
| Pygame2Strategy.OpponentTrial | pygame2/strategy.py:262-270 | the opponent's threat at the cell is found exactly when it is one, and then the save-life answer is returned |
| Pygame2Strategy.ScanNeighbours | pygame2/strategy.py:149-160 | the inner loop of go_capture over one token's empty neighbours, on copies |
| Pygame2Strategy.GoCapture | pygame2/strategy.py:136-165 | go_capture returns the capture-hunt answer |
| Pygame2Strategy.RootScan | pygame2/strategy.py:174-189 | the actions dictionary holds the min value of every empty cell, in visiting order |
| Pygame2Strategy.Minimax | pygame2/strategy.py:168-197 | minimax returns the first cell of largest value after check_game_point |
| Pygame2Strategy.MakeAction | pygame2/strategy.py:12-17 | make_action is minimax at depth 1: an empty board cell, and a game point when there is one |
| Pygame2Strategy.RandomMove | pygame2/strategy.py:303-309 | random_move returns the first draw that misses the occupied cells |
| PygamePlayer.Record | pygame/player.py:92-96 | the configuration's count rises by one, starting at 1 for a new one, and the key set gains only its snapshot |
| PygamePlayer.RecordOthers | pygame/player.py:92-96 | recording one configuration leaves the count of every other configuration unchanged |
| PygamePlayer.TriesPrefix | pygame/player.py:48-64 | the moves tried begin with the given ones, and at most rounds more follow |
| PygamePlayer.TriesChosen | pygame/player.py:52-55 | each re-chosen move is make_action's answer with every earlier tried move on the board as the player's token |
| PygamePlayer.TriesRejected | pygame/player.py:49 | every move given up led to a board seen six times |
| PygamePlayer.TriesAccepted | pygame/player.py:49-66 | the move played leads to a board not seen exactly six times, unless the rounds ran out |
| PygamePlayer.MarkUnmark | pygame/player.py:52-58 | putting the tried moves on the board and popping them again gives the board back |
| PygamePlayer.Player.constructor | pygame/player.py:7-24 | the colour, the opponent's colour and an empty board with an empty ledger |
| PygamePlayer.Player.MarkTried | pygame/player.py:52-53 | every tried cell holds the player's token |
| PygamePlayer.Player.UnmarkTried | pygame/player.py:57-58 | exactly the tried cells are emptied; each pop finds its cell |
| PygamePlayer.Player.Retry | pygame/player.py:50-64 | one round of the loop: make_action's answer with the tried moves marked, then placed with its captures |
| PygamePlayer.Player.Rechoose | pygame/player.py:38-66 | the move played is the last of the moves Tries lists, and the board is left as it was |
| PygamePlayer.Player.Action | pygame/player.py:26-67 | Blue's first move steals; Red's first move is an on-board cell off the centre; any other move is Rechoose's; the board is unchanged |
| PygamePlayer.Player.Turn | pygame/player.py:69-96 | a placement with its captures or a steal is applied, and the new configuration is counted once more |
| Pygame2Player.Player.constructor | pygame2/player.py:7-22 | the colour, the opponent's colour and an empty board |
| Pygame2Player.Player.Action | pygame2/player.py:25-43 | Blue's first move steals; Red's first move is the first draw, or the second draw when the first was the centre; any other move is minimax at depth 1 on an empty cell |
| Pygame2Player.Player.Turn | pygame2/player.py:46-65 | a placement with its captures or a steal is applied |

## Left out

- Randomness: `random.randint` becomes the `draws` sequences and the `cells` visiting order. The `draws` preconditions ("some draw succeeds") stand for the source's loop, which ends with probability one.
- `random_move` in pygame/strategy.py:354-360 reads the same as pygame2's and is modelled once, as `Pygame2Strategy.RandomMove`. Inside pygame's search loops it is the `cells` order.
- Time: `time.time()` and `total_time` are left out. `PygameStrategy.MakeAction` takes the total time as a parameter `totalTime: real`.
- The referee: imports from `referee.game` become the `Colour` and `Action` datatypes.
- `almost_capture` (pygame/board.py:231-255, pygame2/board.py:211-233) is not modelled, because no code of either variant calls it. Likewise `is_occupied` and `inbounds` become the `in` test and `InBounds`. `Pygame2Board.Board.IsFull` is modelled but unused.
- `greedy_eval` and `greedy_proceed` of pygame2 (pygame2/strategy.py:22-47) are not modelled, because its `make_action` never reaches them.
- Order of dictionary iteration: where the result depends on it (`find_same_tokens`, `go_capture`, pygame's `make_action`), the order is the `keys` parameter. `StealUpdate` picks the first key with `:|`, so the model promises only "some key" unless one token is down.
- GetMaxValue/GetMinValue (both variants): the search recursion carries `fuel`, since captures can shrink the board and the source's recursion has no bound Dafny can see. A node reached with no fuel left is scored by eval.
- PygamePlayer.Player.Rechoose/Action: the loop that re-chooses a move while the board would be seen for the seventh time is bounded by `rounds`. The source loop has no bound.
- PygamePlayer.Player.Action: `make_action` is the function parameter `choose`, required to answer with an empty cell. It is not tied to `PygameStrategy.MakeAction`, because `make_action` is not total (it needs an empty cell on the board).
- Pygame2Player.Player.Action: make_action's `cells` order and the board conditions (`WellFormed`, an empty cell) are preconditions, as in `Pygame2Strategy.MakeAction`.
- Pygame2Strategy.MakeAction and the pygame2 search methods work on `copy.deepcopy` copies, modelled by `Pygame2Board.Board.Copy`. Aliasing of nested objects does not arise, because a board holds only a map.
- `float('inf')` becomes `Extended.Ext`. `check_game_point`'s value is always +inf, which is left implicit in `Lookahead.GamePoint`.
- Python's `0`/tuple/`None` returns of `check_game_point` and `attempt_save_life` become `Option<Coord>`.
- Floating point, printing and the `turn_time` bookkeeping are not modelled.
