# Ultimate tic-tac-toe agent: search and evaluation engine

This project models the move engine of a 9×9 ("ultimate") tic-tac-toe agent and proves properties of it in Dafny.

- **Board.** The engine keeps one 10×10 integer board. Row `i` is sub-board `i` and column `j` is cell `j`; index 0 is unused. A cell holds 0 (empty), 1 (our mark) or 2 (their mark).
- **State.** Besides the board, the engine holds three pieces of state:
  - `curr`, the sub-board it must play in next;
  - a move counter;
  - the search depth limit.
- **Search.** To choose a move, the engine runs alpha-beta search over the cells of `curr`.
  - The search marks cells speculatively on the one shared board and clears them again.
  - A node first checks whether the move that produced it won its sub-board, and only then checks the depth limit.
  - At the horizon it scores the board with a heuristic that counts "open twos": lines with two marks of one player and the third cell empty.
  - The chosen move is committed with `place`. That sets the next sub-board, counts the move, and deepens the search by two plies every 22 moves.

Modules:

- `Scores` (scores.dfy): search values, integers extended by minus and plus infinity. `min` and `max` keep the first argument on ties.
- `Board` (board.dfy): board snapshots (`Grid`, taken from the array by `Cells`), the win test and the move generator.
- `Heuristic` (heuristic.dfy):
  - the evaluator `CalcH`, a loop over the array, proved equal to the closed form `HeuristicValue`;
  - the lemmas about that closed form.
- `Search` (search.dfy), in three parts:
  - the value of every search node as pure functions of a snapshot (`MinValue`, `MaxValue`, `RootMove`);
  - plain minimax over the same tree (`MinimaxMin`, `MinimaxMax`, `BestMove`);
  - the theorem that alpha-beta pruning never changes the chosen move (`AlphaBetaAgreesWithMinimax`).
- `Agent` (agent.dfy):
  - the class holding the board and the three counters;
  - the in-place search methods, each proved to restore the board and to return what `Search` specifies;
  - `Place` and `Play`.

  Their contracts speak of the state before and after a call (`old`, `modifies`). What they return and the new state are tied to the `Search`, `Heuristic` and `Agent` functions, and the lemmas about those functions carry the properties.

The search value at the root is computed fail-hard. Below the root, a node's value equals its minimax value only inside the (alpha, beta) window; outside it, the value is only on the correct side of the bound (`MinValueBrackets`, `MaxValueBrackets`). The root is searched with beta = +∞ and never prunes. It keeps the first child whose value strictly exceeds the best so far. Consequently:

- it returns the lowest empty cell among those of greatest minimax value;
- it returns 0 exactly when every move is worth minus infinity, which includes a full sub-board.

A node whose sub-board has no empty cell does not expand: it returns its incoming bound, as if the side to move had lost. Under plain minimax, sending them into a full sub-board is therefore worth plus infinity to us, and being sent into one is worth minus infinity (`SendingIntoFullIsWinning`, `SentIntoFullIsLosing`).

Behaviour of the code worth knowing:

- The evaluator is the code's open-two count `(us * |us boards| + 2) - them * |them boards|`. It gives no weight to single marks, no extra weight to the opponent's threats, and no value to a won or drawn sub-board.
- Their pattern "cells 8 and 9 theirs, cell 7 empty" is counted but never adds its sub-board to their list (src/agent.py:360-361). It is modelled as written, and `RecordedMissesOnePattern` and `UnrecordedThreatCostsNothing` state its effect.
- The root returns 0 ("no move") not only when there are no legal moves but also when every move is worth minus infinity: a move after which they win by force, or after which they can send us into a full sub-board, where we have no legal move and are scored as losing. `play` then falls back to the lowest empty cell.
- A one-move win is always valued plus infinity. With a depth limit of 1 the search returns the lowest winning cell. With deeper limits it may instead return a lower-numbered cell that is also worth plus infinity (`ImmediateWinIsChosen`). Such a cell need not win anything: a cell that sends them into a full sub-board is worth plus infinity too, so the search can prefer it to an immediate win (`FullSubBoardOutranksWin`).
- On the empty board, sent to sub-board 5 with depth limit 3, the search does not take the centre: it plays cell 1. Every first move is worth exactly 2, because any reply of theirs that sends us to a sub-board other than 5 leaves neither player an open two, and no reply does better for them; the first of the nine tied cells is kept (`OpeningPlaysCellOne`).
- `play` on a full sub-board places nothing and returns no move; the code falls off the end of the function. It is modelled as `None`.

## Model

| member | source | states |
|---|---|---|
| Scores.Min | src/agent.py:143 | `min(beta, eval)` is at most both arguments and is one of them |
| Scores.Max | src/agent.py:171 | `max(alpha, eval)` is at least both arguments and is one of them |
| Board.EmptyGrid | src/agent.py:56 | the board a game starts from has every cell 0 |
| Board.CheckWin | src/agent.py:436-447 | the win test holds exactly when some line of the eight-line table (three rows, three columns, two diagonals) has all three cells equal to the player |
| Board.TwoMarksDoNotWin | src/agent.py:436-447 | a sub-board holding a player's mark in at most two cells is not a win for that player |
| Board.TopRowWinsForUsOnly | src/agent.py:436-447 | a sub-board `[1,1,1,2,2,0,0,0,0]` is a win for player 1 and not for player 2 |
| Board.MarkUndo | src/agent.py:141-144 | marking an empty cell and then clearing it gives back the board as it was; the search's restore steps use this |
| Board.EmptyFrom | src/agent.py:186-188 | the cells from `i` to 9 that are empty, strictly ascending |
| Board.PossibleMoves | src/agent.py:184-189 | the moves are exactly the empty cells 1..9 of the sub-board, strictly ascending, at most nine |
| Heuristic.UsBoards | src/agent.py:224-325 | our list holds exactly the sub-boards among 1..n with an open two for us, ascending and without repeats |
| Heuristic.ThemBoards | src/agent.py:224-425 | their list holds exactly the sub-boards among 1..n with an open two of theirs that records, ascending and without repeats |
| Heuristic.CalcH | src/agent.py:214-427 | the evaluator's loop returns `HeuristicValue`, the score `(us * \|us list\| + 2) - them * \|them list\|` over sub-boards 1..9 |
| Heuristic.ScanSubBoard | src/agent.py:224-425 | one sub-board adds its open twos to each count, and appends itself to a list iff it has a recording match |
| Heuristic.TallyLine | src/agent.py:226-237 | the three tests of a line add the number of matching patterns and append the sub-board at most once |
| Heuristic.LineMatchesAtMostOnce | src/agent.py:226-237 | the three patterns of one line exclude each other |
| Heuristic.OpenTwosAtMostLines | src/agent.py:224-325 | a sub-board has at most one match per scanned line |
| Heuristic.TotalAtMost | src/agent.py:224-425 | over n sub-boards a player has at most 8n matches |
| Heuristic.RecordedMissesOnePattern | src/agent.py:360-361 | their recording matches are their matches minus the one pattern "8 and 9 theirs, 7 empty" |
| Heuristic.HeuristicRange | src/agent.py:427 | the score lies between 2 - 648 and 648 + 2 |
| Heuristic.SparseNoMatches | src/agent.py:224-425 | a sub-board with at most one mark of a player has no match for that player, since every pattern needs two |
| Heuristic.SparseBoardsAddNothing | src/agent.py:224-425 | sub-boards with at most one mark of a player add nothing to that player's count or list |
| Heuristic.SparseBoardScoresTwo | src/agent.py:427 | a board with at most one mark of each player per sub-board scores 2 |
| Heuristic.ScoresAtLeastTwo | src/agent.py:427 | a board with at most one of their marks per sub-board scores at least 2, whatever our marks |
| Heuristic.EmptyBoardScoresTwo | src/agent.py:214-427 | the empty board scores 2 |
| Heuristic.EightNineOnly | src/agent.py:258-261 | a sub-board with only cells 8 and 9 marked has exactly one match, and for them that match does not record |
| Heuristic.UnrecordedThreatCostsNothing | src/agent.py:360-361 | their open two 8-9 in sub-board 1 on an otherwise empty board is counted once, their list stays empty, and the board scores 2 |
| Heuristic.RecordedOpenTwoCounts | src/agent.py:258-261 | the same two marks made by us are counted and recorded, and the board scores 3 |
| Search.WinBeforeHorizon | src/agent.py:129-135 | a win by the player who just moved gives +∞ (minimiser) or −∞ (maximiser) at any depth; only otherwise does a node at the limit return the heuristic |
| Search.MinLoopAtMostBeta | src/agent.py:137-147 | the minimiser's loop never returns more than the beta it started with |
| Search.MaxLoopAtLeastAlpha | src/agent.py:165-175 | the maximiser's loop never returns less than the alpha it started with |
| Search.MinValueAtMostBeta | src/agent.py:126-147 | an expanding minimiser returns at most the incoming beta, and exactly beta when it has no children |
| Search.MaxValueAtLeastAlpha | src/agent.py:154-175 | an expanding maximiser returns at least the incoming alpha, and exactly alpha when it has no children |
| Search.MinLoopStopsAtCutoff | src/agent.py:145-146 | once beta <= alpha the minimiser looks at no further child: children after the cut-off do not change its value |
| Search.MaxLoopStopsAtCutoff | src/agent.py:173-174 | once beta <= alpha the maximiser looks at no further child |
| Search.MinValueBrackets | src/agent.py:126-147 | the minimiser's value is its minimax value inside (alpha, beta), at most alpha when that value is, and at least beta when that value is |
| Search.MaxValueBrackets | src/agent.py:154-175 | the same window property for the maximiser |
| Search.MinLoopBrackets | src/agent.py:137-147 | the minimiser's loop against the least minimax value of its remaining children |
| Search.MaxLoopBrackets | src/agent.py:165-175 | the maximiser's loop against the greatest minimax value of its remaining children |
| Search.RootLoopIsFirstBest | src/agent.py:112-118 | the root's loop keeps the same (alpha, move) pairs as a loop over exact minimax values |
| Search.AlphaBetaAgreesWithMinimax | src/agent.py:95-119 | the search's move equals the move plain minimax without pruning chooses |
| Search.FirstBestOutcome | src/agent.py:116-118 | the root's update rule yields either its starting move, when no child beats the start value, or the first child of greatest value |
| Search.OutcomeAfterTake | src/agent.py:116-118 | a child that strictly beats alpha and becomes the new best keeps the outcome of the remaining children |
| Search.OutcomeAfterSkip | src/agent.py:116-118 | a child that does not beat alpha keeps the outcome of the remaining children |
| Search.FirstBestIsLowestGreatest | src/agent.py:112-118 | over ascending children, the choice is 0 iff every value is −∞; otherwise it is a child of greatest value and every lower child is strictly worse |
| Search.RootMoveIsFirstGreatest | src/agent.py:95-119 | the search returns 0 or an empty cell; 0 iff every move is worth −∞; otherwise the lowest empty cell of greatest minimax value |
| Search.ImmediateWinIsChosen | src/agent.py:95-132 | a move that wins at once gives a search move worth +∞ at or below it; with depth limit 1 the search returns the lowest winning cell |
| Search.SendingIntoFullIsWinning | src/agent.py:137-147 | our move that sends them into a full sub-board is worth +∞ under any depth limit above 1, whether or not it wins |
| Search.SentIntoFullIsLosing | src/agent.py:165-175 | their reply that sends us into a full sub-board, without winning, is worth −∞ to us before the depth limit |
| Search.FullSubBoardOutranksWin | src/agent.py:95-147 | with sub-board 1 full and sub-board 2 `[_,2,_,2,1,_,1,_,2]`, cell 3 wins at once and cell 1 does not, yet at depth limit 2 the search plays cell 1 |
| Search.MaxOverConstant | src/agent.py:165-175 | when all our moves below a node are worth the same value, so is their maximum |
| Search.MinOverAtLeast | src/agent.py:137-147 | when all their replies are worth at least a value, so is their minimum |
| Search.MinOverReaches | src/agent.py:137-147 | when all their replies are worth at least a value and one reply is worth exactly it, the minimum is that value |
| Search.MinNodeReaches | src/agent.py:126-147 | the same for a minimiser node that neither ends in our win nor sits at the depth limit |
| Search.MaxNodeConstant | src/agent.py:154-175 | a maximiser node with a legal move, whose moves are all worth one value, is worth that value |
| Search.MaxNodeAtLeast | src/agent.py:154-175 | a maximiser node with a legal move, whose moves are all worth at least a value, is worth at least it |
| Search.TiedRootPlaysFirst | src/agent.py:95-119 | when cell 1 is free and every legal move has the same value above −∞, the search plays cell 1 |
| Search.OpeningLeaf | src/agent.py:126-135 | in the opening line at depth 3 our last move wins nothing, so the leaf takes the heuristic's finite value, at least 2, exactly 2 when their reply was outside cell 5 |
| Search.OpeningReply | src/agent.py:154-175 | their reply in the opening line is worth at least 2 to us, exactly 2 outside cell 5 |
| Search.OpeningReplies | src/agent.py:137-147 | the same for every legal reply to our first move |
| Search.OpeningMoveValue | src/agent.py:126-147 | each of our first moves in sub-board 5 of the empty board is worth exactly 2 at depth limit 3 |
| Search.OpeningPlaysCellOne | src/agent.py:95-119 | on the empty board, in sub-board 5 with depth limit 3, the search returns cell 1 |
| Agent.Tick | src/agent.py:456-460 | a counter in 0..21 stays in 0..21, and the depth limit never decreases |
| Agent.TicksClosedForm | src/agent.py:456-460 | after n placed moves from the start the counter is n mod 22 and the limit is 5 + 2(n div 22) |
| Agent.FirstEmptyIsLowest | src/agent.py:199-202 | an empty cell with every lower cell taken is the fallback move |
| Agent.ChoiceLegal | src/agent.py:194-205 | the agent's choice is none iff the sub-board is full, is otherwise an empty cell, and is the search's move whenever some move is worth more than −∞ |
| Agent.Agent.constructor | src/agent.py:56-63 | empty board, sub-board 0, counter 0, depth limit 5 |
| Agent.Agent.CalcMin | src/agent.py:126-147 | the minimiser leaves every cell as it found it and returns `MinValue`: +∞ when our last move won its sub-board, the heuristic at the depth limit, and otherwise its pruning loop over the empty cells of `move` |
| Agent.Agent.MinChildren | src/agent.py:137-147 | the minimiser's loop restores the board and returns `MinLoop`: the running minimum of beta and the children's maximiser values, stopping once beta <= alpha, and beta itself when there are no children |
| Agent.Agent.CalcMax | src/agent.py:154-175 | the maximiser leaves every cell as it found it and returns `MaxValue`: −∞ when their last move won its sub-board, the heuristic at the depth limit, and otherwise its pruning loop over the empty cells of `move` |
| Agent.Agent.MaxChildren | src/agent.py:165-175 | the maximiser's loop restores the board and returns `MaxLoop`: the running maximum of alpha and the children's minimiser values, stopping once beta <= alpha, and alpha itself when there are no children |
| Agent.Agent.TryTheirMove | src/agent.py:141-144 | their speculative mark is cleared again and the child's maximiser value is returned |
| Agent.Agent.TryOurMove | src/agent.py:169-172 | our speculative mark is cleared again and the child's minimiser value is returned |
| Agent.Agent.AlphaBeta | src/agent.py:95-119 | the root search leaves every cell as it found it and returns `RootMove`, which `RootMoveIsFirstGreatest` characterises |
| Agent.Agent.Place | src/agent.py:450-460 | exactly one cell is written, `curr` becomes the cell, the counter ticks, and the counter-and-limit invariant is kept |
| Agent.Agent.Play | src/agent.py:194-205 | returns `Choice`, the search's move or else the lowest empty cell, which `ChoiceLegal` characterises; with a move, the only board change is that empty cell becoming 1 and `curr` becomes it; with none, nothing changes |

## Left out

- `main` (socket loop and command-line arguments), `parse` (the text protocol that calls `place` and `play`), and `print_board` / `print_board_row` together with the board print at the start of `play`: these are I/O.
- The int8 storage of the board: cells are unbounded integers. The engine only ever writes 0, 1 and 2, so no wrap-around arises.
- Out-of-range and negative indices, which numpy would wrap or reject: sub-board and cell numbers are typed 0..9.
- Floating-point infinities are replaced by the `Score` datatype. The engine only compares them and takes their min and max.
- The 48 literal pattern tests of `calc_h` are written as a table of the eight lines with three patterns each, scanned in the same order. The loop is split into `ScanSubBoard` and `TallyLine` (one sub-board, one line) so that each proof stays small.
- The children dictionary of `possibleMoves` is an ascending sequence, which is the order in which the dictionary is iterated.
- The per-child mark, recurse and clear steps of `calc_min`, `calc_max` and `alphabeta` are the methods `TryTheirMove` and `TryOurMove`. The child loops are `MinChildren` and `MaxChildren`.
- No victory test over the 3×3 arrangement of sub-boards, because the engine has none.
