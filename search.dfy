/**
 * What the alpha-beta search computes, as functions of a board snapshot.
 *
 * A minimiser node is their turn after our move into sub-board `currMove`;
 * they must play in sub-board `move`. A maximiser node is our turn after
 * theirs. A node first tests whether the move that produced it won its
 * sub-board, then whether the depth limit is reached, and only otherwise
 * expands its children (the empty cells of `move`, ascending), pruning
 * once beta <= alpha. The root is a maximiser that never prunes and also
 * remembers the first child that strictly raised alpha.
 *
 * Beside it stands plain minimax over the same tree without bounds, and
 * the theorem that pruning never changes the move the root chooses.
 */
module Search {
  import opened Scores
  import opened Board
  import opened Heuristic

  // ---------------------------------------------------------------------
  // The alpha-beta search

  /** The value the minimiser returns. */
  ghost function MinValue(g: Grid, move: Index, alpha: Score, beta: Score, depth: int, currMove: Index, limit: int): Score
    decreases limit - depth, 0, 0
  {
    if CheckWin(g, currMove, 1) then PosInf
    else if depth >= limit then Fin(HeuristicValue(g))
    else MinLoop(g, move, PossibleMoves(g, move), alpha, beta, depth + 1, limit)
  }

  /** The minimiser's loop over the children still to visit, `beta` the bound so far. */
  ghost function MinLoop(g: Grid, move: Index, children: seq<Pos>, alpha: Score, beta: Score, depth: int, limit: int): Score
    decreases limit - depth, 1, |children|
  {
    if children == [] then beta
    else
      var eval := MaxValue(Mark(g, move, children[0], 2), children[0], alpha, beta, depth, move, limit);
      var beta' := Min(beta, eval);
      if Le(beta', alpha) then beta' else MinLoop(g, move, children[1..], alpha, beta', depth, limit)
  }

  /** The value the maximiser returns. */
  ghost function MaxValue(g: Grid, move: Index, alpha: Score, beta: Score, depth: int, currMove: Index, limit: int): Score
    decreases limit - depth, 0, 0
  {
    if CheckWin(g, currMove, 2) then NegInf
    else if depth >= limit then Fin(HeuristicValue(g))
    else MaxLoop(g, move, PossibleMoves(g, move), alpha, beta, depth + 1, limit)
  }

  /** The maximiser's loop over the children still to visit, `alpha` the bound so far. */
  ghost function MaxLoop(g: Grid, move: Index, children: seq<Pos>, alpha: Score, beta: Score, depth: int, limit: int): Score
    decreases limit - depth, 1, |children|
  {
    if children == [] then alpha
    else
      var eval := MinValue(Mark(g, move, children[0], 1), children[0], alpha, beta, depth, move, limit);
      var alpha' := Max(alpha, eval);
      if Le(beta, alpha') then alpha' else MaxLoop(g, move, children[1..], alpha', beta, depth, limit)
  }

  /** The root's loop: `alpha` the best value so far and `next` the child that reached it (0 for none). */
  ghost function RootLoop(g: Grid, b: Index, children: seq<Pos>, alpha: Score, next: int, limit: int): int
    decreases |children|
  {
    if children == [] then next
    else
      var eval := MinValue(Mark(g, b, children[0], 1), children[0], alpha, PosInf, 1, b, limit);
      if Lt(alpha, eval) then RootLoop(g, b, children[1..], eval, children[0], limit)
      else RootLoop(g, b, children[1..], alpha, next, limit)
  }

  /** The move the search returns for sub-board `b`: a cell, or 0 when no child beat minus infinity. */
  ghost function RootMove(g: Grid, b: Index, limit: int): int {
    RootLoop(g, b, PossibleMoves(g, b), NegInf, 0, limit)
  }

  // ---------------------------------------------------------------------
  // Plain minimax over the same tree, the reference for the search

  ghost function MinimaxMin(g: Grid, move: Index, depth: int, currMove: Index, limit: int): Score
    decreases limit - depth, 0, 0
  {
    if CheckWin(g, currMove, 1) then PosInf
    else if depth >= limit then Fin(HeuristicValue(g))
    else MinOver(g, move, PossibleMoves(g, move), depth + 1, limit)
  }

  /** The least minimax value of the given children; plus infinity when there are none. */
  ghost function MinOver(g: Grid, move: Index, children: seq<Pos>, depth: int, limit: int): Score
    decreases limit - depth, 1, |children|
  {
    if children == [] then PosInf
    else Min(MinimaxMax(Mark(g, move, children[0], 2), children[0], depth, move, limit),
             MinOver(g, move, children[1..], depth, limit))
  }

  ghost function MinimaxMax(g: Grid, move: Index, depth: int, currMove: Index, limit: int): Score
    decreases limit - depth, 0, 0
  {
    if CheckWin(g, currMove, 2) then NegInf
    else if depth >= limit then Fin(HeuristicValue(g))
    else MaxOver(g, move, PossibleMoves(g, move), depth + 1, limit)
  }

  /** The greatest minimax value of the given children; minus infinity when there are none. */
  ghost function MaxOver(g: Grid, move: Index, children: seq<Pos>, depth: int, limit: int): Score
    decreases limit - depth, 1, |children|
  {
    if children == [] then NegInf
    else Max(MinimaxMin(Mark(g, move, children[0], 1), children[0], depth, move, limit),
             MaxOver(g, move, children[1..], depth, limit))
  }

  /** The minimax value of our move to cell `c` of sub-board `b`. */
  ghost function ChildValue(g: Grid, b: Index, c: Pos, limit: int): Score {
    MinimaxMin(Mark(g, b, c, 1), c, 1, b, limit)
  }

  /** The minimax values of our moves in sub-board `b`, as one function of the cell. */
  ghost function ChildValues(g: Grid, b: Index, limit: int): Pos -> Score {
    (c: Pos) => ChildValue(g, b, c, limit)
  }

  /** The first child of strictly greatest `value` above `best`, or `next` when none beats `best`. */
  ghost function FirstBest(value: Pos -> Score, children: seq<Pos>, best: Score, next: int): int
    decreases |children|
  {
    if children == [] then next
    else if Lt(best, value(children[0])) then FirstBest(value, children[1..], value(children[0]), children[0])
    else FirstBest(value, children[1..], best, next)
  }

  /** The minimax choice: the lowest cell of greatest value, 0 when every value is minus infinity. */
  ghost function BestMove(g: Grid, b: Index, limit: int): int {
    FirstBest(ChildValues(g, b, limit), PossibleMoves(g, b), NegInf, 0)
  }

  // ---------------------------------------------------------------------
  // Win before horizon, and the bounds of a node that expands

  /** A win by the player who just moved decides the node whatever the depth; only then does the horizon apply. */
  lemma WinBeforeHorizon(g: Grid, move: Index, alpha: Score, beta: Score, depth: int, currMove: Index, limit: int)
    ensures CheckWin(g, currMove, 1) ==> MinValue(g, move, alpha, beta, depth, currMove, limit) == PosInf
    ensures CheckWin(g, currMove, 2) ==> MaxValue(g, move, alpha, beta, depth, currMove, limit) == NegInf
    ensures !CheckWin(g, currMove, 1) && depth >= limit ==>
      MinValue(g, move, alpha, beta, depth, currMove, limit) == Fin(HeuristicValue(g))
    ensures !CheckWin(g, currMove, 2) && depth >= limit ==>
      MaxValue(g, move, alpha, beta, depth, currMove, limit) == Fin(HeuristicValue(g))
  {
  }

  /** The minimiser's loop never returns more than the bound it started with. */
  lemma {:induction false} MinLoopAtMostBeta(g: Grid, move: Index, cs: seq<Pos>, alpha: Score, beta: Score, depth: int, limit: int)
    ensures Le(MinLoop(g, move, cs, alpha, beta, depth, limit), beta)
    decreases |cs|
  {
    if cs != [] {
      var beta' := Min(beta, MaxValue(Mark(g, move, cs[0], 2), cs[0], alpha, beta, depth, move, limit));
      if !Le(beta', alpha) {
        MinLoopAtMostBeta(g, move, cs[1..], alpha, beta', depth, limit);
      }
    }
  }

  /** The maximiser's loop never returns less than the bound it started with. */
  lemma {:induction false} MaxLoopAtLeastAlpha(g: Grid, move: Index, cs: seq<Pos>, alpha: Score, beta: Score, depth: int, limit: int)
    ensures Le(alpha, MaxLoop(g, move, cs, alpha, beta, depth, limit))
    decreases |cs|
  {
    if cs != [] {
      var alpha' := Max(alpha, MinValue(Mark(g, move, cs[0], 1), cs[0], alpha, beta, depth, move, limit));
      if !Le(beta, alpha') {
        MaxLoopAtLeastAlpha(g, move, cs[1..], alpha', beta, depth, limit);
      }
    }
  }

  /** A minimiser that expands returns at most the incoming beta, and exactly beta without children. */
  lemma MinValueAtMostBeta(g: Grid, move: Index, alpha: Score, beta: Score, depth: int, currMove: Index, limit: int)
    requires !CheckWin(g, currMove, 1) && depth < limit
    ensures Le(MinValue(g, move, alpha, beta, depth, currMove, limit), beta)
    ensures PossibleMoves(g, move) == [] ==> MinValue(g, move, alpha, beta, depth, currMove, limit) == beta
  {
    MinLoopAtMostBeta(g, move, PossibleMoves(g, move), alpha, beta, depth + 1, limit);
  }

  /** A maximiser that expands returns at least the incoming alpha, and exactly alpha without children. */
  lemma MaxValueAtLeastAlpha(g: Grid, move: Index, alpha: Score, beta: Score, depth: int, currMove: Index, limit: int)
    requires !CheckWin(g, currMove, 2) && depth < limit
    ensures Le(alpha, MaxValue(g, move, alpha, beta, depth, currMove, limit))
    ensures PossibleMoves(g, move) == [] ==> MaxValue(g, move, alpha, beta, depth, currMove, limit) == alpha
  {
    MaxLoopAtLeastAlpha(g, move, PossibleMoves(g, move), alpha, beta, depth + 1, limit);
  }

  /**
   * Once the minimiser's bound drops to alpha the remaining children are not
   * looked at: children appended after a cut-off change nothing.
   */
  lemma {:induction false} MinLoopStopsAtCutoff(g: Grid, move: Index, cs: seq<Pos>, extra: seq<Pos>,
                                                alpha: Score, beta: Score, depth: int, limit: int)
    requires cs != []
    requires Le(MinLoop(g, move, cs, alpha, beta, depth, limit), alpha)
    ensures MinLoop(g, move, cs + extra, alpha, beta, depth, limit) == MinLoop(g, move, cs, alpha, beta, depth, limit)
    decreases |cs|
  {
    assert (cs + extra)[0] == cs[0];
    assert (cs + extra)[1..] == cs[1..] + extra;
    var beta' := Min(beta, MaxValue(Mark(g, move, cs[0], 2), cs[0], alpha, beta, depth, move, limit));
    if !Le(beta', alpha) {
      assert MinLoop(g, move, cs, alpha, beta, depth, limit) == MinLoop(g, move, cs[1..], alpha, beta', depth, limit);
      assert MinLoop(g, move, [], alpha, beta', depth, limit) == beta';
      assert cs[1..] != [];
      MinLoopStopsAtCutoff(g, move, cs[1..], extra, alpha, beta', depth, limit);
    }
  }

  /** Once the maximiser's bound reaches beta the remaining children are not looked at. */
  lemma {:induction false} MaxLoopStopsAtCutoff(g: Grid, move: Index, cs: seq<Pos>, extra: seq<Pos>,
                                                alpha: Score, beta: Score, depth: int, limit: int)
    requires cs != []
    requires Le(beta, MaxLoop(g, move, cs, alpha, beta, depth, limit))
    ensures MaxLoop(g, move, cs + extra, alpha, beta, depth, limit) == MaxLoop(g, move, cs, alpha, beta, depth, limit)
    decreases |cs|
  {
    assert (cs + extra)[0] == cs[0];
    assert (cs + extra)[1..] == cs[1..] + extra;
    var alpha' := Max(alpha, MinValue(Mark(g, move, cs[0], 1), cs[0], alpha, beta, depth, move, limit));
    if !Le(beta, alpha') {
      assert MaxLoop(g, move, cs, alpha, beta, depth, limit) == MaxLoop(g, move, cs[1..], alpha', beta, depth, limit);
      assert MaxLoop(g, move, [], alpha', beta, depth, limit) == alpha';
      assert cs[1..] != [];
      MaxLoopStopsAtCutoff(g, move, cs[1..], extra, alpha', beta, depth, limit);
    }
  }

  // ---------------------------------------------------------------------
  // Alpha-beta against minimax

  /**
   * The fail-hard window property: a search value `v` inside the window
   * (alpha, beta) is the minimax value `m`; a minimax value at or below
   * alpha gives a search value at or below alpha, and one at or above beta
   * a search value at or above beta.
   */
  ghost predicate Brackets(v: Score, m: Score, alpha: Score, beta: Score) {
    (Le(m, alpha) ==> Le(v, alpha)) &&
    (Lt(alpha, m) && Lt(m, beta) ==> v == m) &&
    (Le(beta, m) ==> Le(beta, v))
  }

  lemma {:induction false} MinValueBrackets(g: Grid, move: Index, alpha: Score, beta: Score, depth: int, currMove: Index, limit: int)
    ensures Brackets(MinValue(g, move, alpha, beta, depth, currMove, limit), MinimaxMin(g, move, depth, currMove, limit), alpha, beta)
    decreases limit - depth, 0, 0
  {
    if !CheckWin(g, currMove, 1) && depth < limit {
      MinLoopBrackets(g, move, PossibleMoves(g, move), alpha, beta, depth + 1, limit);
    }
  }

  lemma {:induction false} MaxValueBrackets(g: Grid, move: Index, alpha: Score, beta: Score, depth: int, currMove: Index, limit: int)
    ensures Brackets(MaxValue(g, move, alpha, beta, depth, currMove, limit), MinimaxMax(g, move, depth, currMove, limit), alpha, beta)
    decreases limit - depth, 0, 0
  {
    if !CheckWin(g, currMove, 2) && depth < limit {
      MaxLoopBrackets(g, move, PossibleMoves(g, move), alpha, beta, depth + 1, limit);
    }
  }

  /** The minimiser's loop against the least minimax value `mm` of its remaining children. */
  lemma {:induction false} MinLoopBrackets(g: Grid, move: Index, cs: seq<Pos>, alpha: Score, beta: Score, depth: int, limit: int)
    ensures var r, mm := MinLoop(g, move, cs, alpha, beta, depth, limit), MinOver(g, move, cs, depth, limit);
      (Le(Min(beta, mm), alpha) ==> Le(r, alpha)) &&
      (Lt(alpha, Min(beta, mm)) ==> r == Min(beta, mm)) &&
      (Le(beta, mm) ==> r == beta)
    decreases limit - depth, 1, |cs|
  {
    if cs != [] {
      var c := cs[0];
      MaxValueBrackets(Mark(g, move, c, 2), c, alpha, beta, depth, move, limit);
      var beta' := Min(beta, MaxValue(Mark(g, move, c, 2), c, alpha, beta, depth, move, limit));
      if !Le(beta', alpha) {
        MinLoopBrackets(g, move, cs[1..], alpha, beta', depth, limit);
      }
    }
  }

  /** The maximiser's loop against the greatest minimax value `mm` of its remaining children. */
  lemma {:induction false} MaxLoopBrackets(g: Grid, move: Index, cs: seq<Pos>, alpha: Score, beta: Score, depth: int, limit: int)
    ensures var r, mm := MaxLoop(g, move, cs, alpha, beta, depth, limit), MaxOver(g, move, cs, depth, limit);
      (Le(beta, Max(alpha, mm)) ==> Le(beta, r)) &&
      (Lt(Max(alpha, mm), beta) ==> r == Max(alpha, mm)) &&
      (Le(mm, alpha) ==> r == alpha)
    decreases limit - depth, 1, |cs|
  {
    if cs != [] {
      var c := cs[0];
      MinValueBrackets(Mark(g, move, c, 1), c, alpha, beta, depth, move, limit);
      var alpha' := Max(alpha, MinValue(Mark(g, move, c, 1), c, alpha, beta, depth, move, limit));
      if !Le(beta, alpha') {
        MaxLoopBrackets(g, move, cs[1..], alpha', beta, depth, limit);
      }
    }
  }

  /** The root's loop and the minimax choice walk through the same (alpha, move) pairs. */
  lemma {:induction false} RootLoopIsFirstBest(g: Grid, b: Index, cs: seq<Pos>, alpha: Score, next: int, limit: int)
    ensures RootLoop(g, b, cs, alpha, next, limit) == FirstBest(ChildValues(g, b, limit), cs, alpha, next)
    decreases |cs|
  {
    if cs != [] {
      var c := cs[0];
      MinValueBrackets(Mark(g, b, c, 1), c, alpha, PosInf, 1, b, limit);
      var m := ChildValue(g, b, c, limit);
      assert ChildValues(g, b, limit)(c) == m;
      if Lt(alpha, m) {
        RootLoopIsFirstBest(g, b, cs[1..], m, c, limit);
      } else {
        RootLoopIsFirstBest(g, b, cs[1..], alpha, next, limit);
      }
    }
  }

  /** Pruning never changes the move: the search chooses what plain minimax chooses. */
  lemma AlphaBetaAgreesWithMinimax(g: Grid, b: Index, limit: int)
    ensures RootMove(g, b, limit) == BestMove(g, b, limit)
  {
    RootLoopIsFirstBest(g, b, PossibleMoves(g, b), NegInf, 0, limit);
  }

  // ---------------------------------------------------------------------
  // What the minimax choice is

  /** The outcome of the choice loop over `cs` from the state (`best`, `next`). */
  ghost predicate ChoiceOutcome(value: Pos -> Score, cs: seq<Pos>, best: Score, next: int, r: int) {
    (r == next && forall k :: 0 <= k < |cs| ==> Le(value(cs[k]), best)) ||
    (exists j :: 0 <= j < |cs| && r == cs[j] && FirstGreatest(value, cs, j, best))
  }

  /** `cs[j]` beats `best`, no child beats it, and every child before it is strictly worse. */
  ghost predicate FirstGreatest(value: Pos -> Score, cs: seq<Pos>, j: int, best: Score)
    requires 0 <= j < |cs|
  {
    Lt(best, value(cs[j])) &&
    (forall k :: 0 <= k < |cs| ==> Le(value(cs[k]), value(cs[j]))) &&
    (forall k :: 0 <= k < j ==> Lt(value(cs[k]), value(cs[j])))
  }

  lemma {:induction false} FirstBestOutcome(value: Pos -> Score, cs: seq<Pos>, best: Score, next: int)
    ensures ChoiceOutcome(value, cs, best, next, FirstBest(value, cs, best, next))
    decreases |cs|
  {
    if cs != [] {
      var c := cs[0];
      if Lt(best, value(c)) {
        FirstBestOutcome(value, cs[1..], value(c), c);
        OutcomeAfterTake(value, cs, best, next, FirstBest(value, cs, best, next));
      } else {
        FirstBestOutcome(value, cs[1..], best, next);
        OutcomeAfterSkip(value, cs, best, next, FirstBest(value, cs, best, next));
      }
    }
  }

  /** A first child that beats `best` and becomes the new best keeps the outcome of the rest. */
  lemma OutcomeAfterTake(value: Pos -> Score, cs: seq<Pos>, best: Score, next: int, r: int)
    requires cs != [] && Lt(best, value(cs[0]))
    requires ChoiceOutcome(value, cs[1..], value(cs[0]), cs[0], r)
    ensures ChoiceOutcome(value, cs, best, next, r)
  {
  }

  /** A first child that does not beat `best` keeps the outcome of the rest. */
  lemma OutcomeAfterSkip(value: Pos -> Score, cs: seq<Pos>, best: Score, next: int, r: int)
    requires cs != [] && !Lt(best, value(cs[0]))
    requires ChoiceOutcome(value, cs[1..], best, next, r)
    ensures ChoiceOutcome(value, cs, best, next, r)
  {
  }

  /**
   * Over ascending children, the choice is 0 exactly when every value is
   * minus infinity; otherwise it is a child of greatest value, and every
   * lower child is worth strictly less (ties go to the lowest cell).
   */
  lemma FirstBestIsLowestGreatest(value: Pos -> Score, ms: seq<Pos>)
    requires forall s, t :: 0 <= s < t < |ms| ==> ms[s] < ms[t]
    ensures var r := FirstBest(value, ms, NegInf, 0);
      (r == 0 <==> forall c :: c in ms ==> value(c) == NegInf) &&
      (r != 0 ==>
        r in ms &&
        (forall c :: c in ms ==> Le(value(c), value(r))) &&
        (forall c :: c in ms && c < r ==> Lt(value(c), value(r))))
  {
    var r := FirstBest(value, ms, NegInf, 0);
    FirstBestOutcome(value, ms, NegInf, 0);
    if r == 0 && forall k :: 0 <= k < |ms| ==> Le(value(ms[k]), NegInf) {
      forall c | c in ms
        ensures value(c) == NegInf
      {
        var k :| 0 <= k < |ms| && ms[k] == c;
      }
    } else {
      var j :| 0 <= j < |ms| && r == ms[j] && FirstGreatest(value, ms, j, NegInf);
      assert ms[j] in ms;
      forall c | c in ms
        ensures Le(value(c), value(r))
        ensures c < r ==> Lt(value(c), value(r))
      {
        var k :| 0 <= k < |ms| && ms[k] == c;
        if c < r {
          assert k < j;
        }
      }
    }
  }

  // ---------------------------------------------------------------------
  // What the search returns

  /**
   * The search returns 0 or an empty cell of sub-board `b`; 0 exactly when
   * every move is worth minus infinity; and otherwise the lowest cell of
   * greatest minimax value.
   */
  lemma RootMoveIsFirstGreatest(g: Grid, b: Index, limit: int)
    ensures var r := RootMove(g, b, limit);
      (r == 0 || (1 <= r <= 9 && g[b][r] == 0)) &&
      (r == 0 <==> forall c :: 1 <= c <= 9 && g[b][c] == 0 ==> ChildValue(g, b, c, limit) == NegInf) &&
      (r != 0 ==>
        (forall c :: 1 <= c <= 9 && g[b][c] == 0 ==> Le(ChildValue(g, b, c, limit), ChildValue(g, b, r, limit))) &&
        (forall c :: 1 <= c < r && g[b][c] == 0 ==> Lt(ChildValue(g, b, c, limit), ChildValue(g, b, r, limit))))
  {
    AlphaBetaAgreesWithMinimax(g, b, limit);
    FirstBestIsLowestGreatest(ChildValues(g, b, limit), PossibleMoves(g, b));
  }

  /**
   * A move that wins its sub-board at once is never passed over: the search
   * returns a move worth plus infinity, at or before that cell. When the
   * depth limit is 1 (the horizon right after our move) it returns exactly
   * the lowest winning cell.
   */
  lemma ImmediateWinIsChosen(g: Grid, b: Index, c: Pos, limit: int)
    requires g[b][c] == 0 && CheckWin(Mark(g, b, c, 1), b, 1)
    ensures var r := RootMove(g, b, limit);
      1 <= r <= c && g[b][r] == 0 && ChildValue(g, b, r, limit) == PosInf &&
      (limit <= 1 ==>
        CheckWin(Mark(g, b, r, 1), b, 1) &&
        forall c' :: 1 <= c' < r && g[b][c'] == 0 ==> !CheckWin(Mark(g, b, c', 1), b, 1))
  {
    RootMoveIsFirstGreatest(g, b, limit);
    var r := RootMove(g, b, limit);
    assert ChildValue(g, b, c, limit) == PosInf;
    assert r != 0;
    if limit <= 1 {
      forall c' | 1 <= c' < r && g[b][c'] == 0
        ensures !CheckWin(Mark(g, b, c', 1), b, 1)
      {
        assert Lt(ChildValue(g, b, c', limit), PosInf);
      }
    }
  }

  // ---------------------------------------------------------------------
  // A side without a legal move is scored as losing

  /**
   * Our move `c` that sends them into a full sub-board is worth plus
   * infinity below a depth limit of 2 or more: their node has no child and
   * keeps its beta, whether or not the move wins anything.
   */
  lemma SendingIntoFullIsWinning(g: Grid, b: Index, c: Pos, limit: int)
    requires g[b][c] == 0 && limit > 1
    requires forall j :: 1 <= j <= 9 ==> Mark(g, b, c, 1)[c][j] != 0
    ensures ChildValue(g, b, c, limit) == PosInf
  {
    var ms := PossibleMoves(Mark(g, b, c, 1), c);
    assert ms == [];
    if !CheckWin(Mark(g, b, c, 1), b, 1) {
      assert MinimaxMin(Mark(g, b, c, 1), c, 1, b, limit) == MinOver(Mark(g, b, c, 1), c, ms, 2, limit);
    }
  }

  /**
   * Their reply `d` that sends us into a full sub-board is worth minus
   * infinity to us when the depth limit lies beyond it.
   */
  lemma SentIntoFullIsLosing(g: Grid, move: Index, d: Pos, depth: int, limit: int)
    requires g[move][d] == 0 && depth < limit && !CheckWin(Mark(g, move, d, 2), move, 2)
    requires forall j :: 1 <= j <= 9 ==> Mark(g, move, d, 2)[d][j] != 0
    ensures MinimaxMax(Mark(g, move, d, 2), d, depth, move, limit) == NegInf
  {
    assert PossibleMoves(Mark(g, move, d, 2), d) == [];
  }

  /**
   * With sub-board 1 full and no win in it, and sub-board 2 as
   * `[_, 2, _, 2, 1, _, 1, _, 2]`, cell 3 wins sub-board 2 at once and cell 1
   * wins nothing; yet at depth limit 2 the search plays cell 1, because it
   * sends them into the full sub-board.
   */
  lemma FullSubBoardOutranksWin(g: Grid)
    requires g[1][1..] == [1, 2, 1, 2, 2, 1, 1, 1, 2]
    requires g[2][1..] == [0, 2, 0, 2, 1, 0, 1, 0, 2]
    ensures CheckWin(Mark(g, 2, 3, 1), 2, 1)
    ensures !CheckWin(Mark(g, 2, 1, 1), 2, 1)
    ensures RootMove(g, 2, 2) == 1
  {
    assert forall j :: 1 <= j <= 9 ==> g[2][j] == g[2][1..][j - 1];
    assert forall j :: 1 <= j <= 9 ==> g[1][j] == g[1][1..][j - 1];
    SendingIntoFullIsWinning(g, 2, 1, 2);
    RootMoveIsFirstGreatest(g, 2, 2);
    var r := RootMove(g, 2, 2);
    assert r != 0;
  }

  // ---------------------------------------------------------------------
  // The opening position: every first move in the centre sub-board ties

  /** Our values of the children are all `v`, so the maximum is `v`. */
  lemma {:induction false} MaxOverConstant(g: Grid, move: Index, cs: seq<Pos>, depth: int, limit: int, v: Score)
    requires cs != []
    requires forall e :: e in cs ==> MinimaxMin(Mark(g, move, e, 1), e, depth, move, limit) == v
    ensures MaxOver(g, move, cs, depth, limit) == v
    decreases |cs|
  {
    if cs[1..] != [] {
      MaxOverConstant(g, move, cs[1..], depth, limit, v);
    }
  }

  /** Our first child is worth at least `v`, so the maximum is too. */
  lemma MaxOverAtLeast(g: Grid, move: Index, cs: seq<Pos>, depth: int, limit: int, v: Score)
    requires cs != []
    requires Le(v, MinimaxMin(Mark(g, move, cs[0], 1), cs[0], depth, move, limit))
    ensures Le(v, MaxOver(g, move, cs, depth, limit))
  {
  }

  /** Their children are all worth at least `v`, so the minimum is too. */
  lemma {:induction false} MinOverAtLeast(g: Grid, move: Index, cs: seq<Pos>, depth: int, limit: int, v: Score)
    requires forall d :: d in cs ==> Le(v, MinimaxMax(Mark(g, move, d, 2), d, depth, move, limit))
    ensures Le(v, MinOver(g, move, cs, depth, limit))
    decreases |cs|
  {
    if cs != [] {
      MinOverAtLeast(g, move, cs[1..], depth, limit, v);
    }
  }

  /** Their children are all worth at least `v` and child `d` is worth `v`: the minimum is `v`. */
  lemma {:induction false} MinOverReaches(g: Grid, move: Index, cs: seq<Pos>, depth: int, limit: int, v: Score, d: Pos)
    requires forall d' :: d' in cs ==> Le(v, MinimaxMax(Mark(g, move, d', 2), d', depth, move, limit))
    requires d in cs && MinimaxMax(Mark(g, move, d, 2), d, depth, move, limit) == v
    ensures MinOver(g, move, cs, depth, limit) == v
    decreases |cs|
  {
    if cs[0] == d {
      MinOverAtLeast(g, move, cs[1..], depth, limit, v);
    } else {
      MinOverReaches(g, move, cs[1..], depth, limit, v, d);
    }
  }

  /** A minimiser whose replies are all worth at least `v`, reply `d` exactly `v`, is worth `v`. */
  lemma MinNodeReaches(g: Grid, move: Index, depth: int, currMove: Index, limit: int, v: Score, d: Pos)
    requires !CheckWin(g, currMove, 1) && depth < limit
    requires forall d' :: 1 <= d' <= 9 && g[move][d'] == 0 ==> Le(v, MinimaxMax(Mark(g, move, d', 2), d', depth + 1, move, limit))
    requires g[move][d] == 0 && MinimaxMax(Mark(g, move, d, 2), d, depth + 1, move, limit) == v
    ensures MinimaxMin(g, move, depth, currMove, limit) == v
  {
    MinOverReaches(g, move, PossibleMoves(g, move), depth + 1, limit, v, d);
  }

  /** A maximiser with a legal move, whose moves are all worth `v`, is worth `v`. */
  lemma MaxNodeConstant(g: Grid, move: Index, depth: int, currMove: Index, limit: int, v: Score, e: Pos)
    requires !CheckWin(g, currMove, 2) && depth < limit
    requires g[move][e] == 0
    requires forall e' :: 1 <= e' <= 9 && g[move][e'] == 0 ==> MinimaxMin(Mark(g, move, e', 1), e', depth + 1, move, limit) == v
    ensures MinimaxMax(g, move, depth, currMove, limit) == v
  {
    MaxOverConstant(g, move, PossibleMoves(g, move), depth + 1, limit, v);
  }

  /** A maximiser with a legal move, whose moves are all worth at least `v`, is worth at least `v`. */
  lemma MaxNodeAtLeast(g: Grid, move: Index, depth: int, currMove: Index, limit: int, v: Score, e: Pos)
    requires !CheckWin(g, currMove, 2) && depth < limit
    requires g[move][e] == 0
    requires forall e' :: 1 <= e' <= 9 && g[move][e'] == 0 ==> Le(v, MinimaxMin(Mark(g, move, e', 1), e', depth + 1, move, limit))
    ensures Le(v, MinimaxMax(g, move, depth, currMove, limit))
  {
    var es := PossibleMoves(g, move);
    assert e in es;
    MaxOverAtLeast(g, move, es, depth + 1, limit, v);
  }

  /** When cell 1 is free and every legal move has the same value, above minus infinity, the search plays cell 1. */
  lemma TiedRootPlaysFirst(g: Grid, b: Index, limit: int, v: Score)
    requires v != NegInf && g[b][1] == 0
    requires forall c :: 1 <= c <= 9 && g[b][c] == 0 ==> ChildValue(g, b, c, limit) == v
    ensures RootMove(g, b, limit) == 1
  {
    RootMoveIsFirstGreatest(g, b, limit);
    var r := RootMove(g, b, limit);
    assert r != 0;
  }

  /** The board after our move `c` in sub-board 5 of the empty board. */
  ghost predicate AfterMove(g: Grid, c: Pos) {
    forall i, j :: 0 <= i < 10 && 0 <= j < 10 ==>
      g[i][j] == (if i == 5 && j == c then 1 else 0)
  }

  /**
   * The board after our move `c` in sub-board 5 of the empty board and
   * their reply `d` in sub-board `c`.
   */
  ghost predicate AfterReply(g: Grid, c: Pos, d: Pos) {
    !(c == 5 && d == 5) &&
    forall i, j :: 0 <= i < 10 && 0 <= j < 10 ==>
      g[i][j] == (if i == 5 && j == c then 1 else if i == c && j == d then 2 else 0)
  }

  /** Our move `c` in sub-board 5 of the empty board gives that board. */
  lemma EmptyThenMove(g0: Grid, c: Pos)
    requires forall i, j :: 0 <= i < 10 && 0 <= j < 10 ==> g0[i][j] == 0
    ensures AfterMove(Mark(g0, 5, c, 1), c)
  {
  }

  /** Their reply `d`, in an empty cell of sub-board `c`, gives that board. */
  lemma MoveThenReply(g: Grid, c: Pos, d: Pos)
    requires AfterMove(g, c) && g[c][d] == 0
    ensures AfterReply(Mark(g, c, d, 2), c, d)
  {
  }

  /**
   * Depth 3, after our move `e` in sub-board `d`: nobody has won, and the
   * heuristic sees at most one of their marks per sub-board, so the value
   * is at least 2; when `d` is not 5 our two marks are in different
   * sub-boards too and the value is exactly 2.
   */
  lemma OpeningLeaf(g: Grid, c: Pos, d: Pos, e: Pos)
    requires AfterReply(g, c, d) && g[d][e] == 0
    ensures !CheckWin(Mark(g, d, e, 1), d, 1)
    ensures var v := MinimaxMin(Mark(g, d, e, 1), e, 3, d, 3);
      v.Fin? && Le(Fin(2), v) && (d != 5 ==> v == Fin(2))
  {
    var g3 := Mark(g, d, e, 1);
    TwoMarksDoNotWin(g3, d, 1, c, e);
    forall i | 1 <= i <= 9
      ensures Sparse(g3[i], 2)
    {
      OnlyCellIsSparse(g3[i], 2, d);
    }
    ScoresAtLeastTwo(g3);
    if d != 5 {
      forall i | 1 <= i <= 9
        ensures Sparse(g3[i], 1)
      {
        OnlyCellIsSparse(g3[i], 1, if i == 5 then c else e);
      }
      SparseBoardScoresTwo(g3);
    }
  }

  /** Their reply `d` in sub-board `c` is worth at least 2 to us, and exactly 2 when `d` is not 5. */
  lemma OpeningReply(g: Grid, c: Pos, d: Pos)
    requires AfterReply(g, c, d)
    ensures var v := MinimaxMax(g, d, 2, c, 3);
      Le(Fin(2), v) && (d != 5 ==> v == Fin(2))
  {
    TwoMarksDoNotWin(g, c, 2, d, d);
    var e0: Pos := if c != 1 && d != 1 then 1 else if c != 2 && d != 2 then 2 else 3;
    forall e | 1 <= e <= 9 && g[d][e] == 0
      ensures var v := MinimaxMin(Mark(g, d, e, 1), e, 3, d, 3); Le(Fin(2), v) && (d != 5 ==> v == Fin(2))
    {
      OpeningLeaf(g, c, d, e);
    }
    if d != 5 {
      MaxNodeConstant(g, d, 2, c, 3, Fin(2), e0);
    } else {
      MaxNodeAtLeast(g, d, 2, c, 3, Fin(2), e0);
    }
  }

  /** Their replies to our move `c` are worth at least 2 to us, and exactly 2 outside cell 5. */
  lemma OpeningReplies(g: Grid, c: Pos)
    requires AfterMove(g, c)
    ensures forall d :: 1 <= d <= 9 && g[c][d] == 0 ==>
      var v := MinimaxMax(Mark(g, c, d, 2), d, 2, c, 3); Le(Fin(2), v) && (d != 5 ==> v == Fin(2))
  {
    forall d | 1 <= d <= 9 && g[c][d] == 0
      ensures var v := MinimaxMax(Mark(g, c, d, 2), d, 2, c, 3); Le(Fin(2), v) && (d != 5 ==> v == Fin(2))
    {
      MoveThenReply(g, c, d);
      OpeningReply(Mark(g, c, d, 2), c, d);
    }
  }

  /** Each of our nine first moves in sub-board 5 of the empty board is worth exactly 2 at depth limit 3. */
  lemma OpeningMoveValue(g: Grid, c: Pos)
    requires AfterMove(g, c)
    ensures MinimaxMin(g, c, 1, 5, 3) == Fin(2)
  {
    TwoMarksDoNotWin(g, 5, 1, c, c);
    OpeningReplies(g, c);
    MinNodeReaches(g, c, 1, 5, 3, Fin(2), 1);
  }

  /**
   * On the empty board, sent to sub-board 5 with depth limit 3, the search
   * plays cell 1: every move ties at 2 and the first of them is kept.
   */
  lemma OpeningPlaysCellOne(g0: Grid)
    requires forall i, j :: 0 <= i < 10 && 0 <= j < 10 ==> g0[i][j] == 0
    ensures RootMove(g0, 5, 3) == 1
  {
    forall c | 1 <= c <= 9 && g0[5][c] == 0
      ensures ChildValue(g0, 5, c, 3) == Fin(2)
    {
      EmptyThenMove(g0, c);
      OpeningMoveValue(Mark(g0, 5, c, 1), c);
    }
    TiedRootPlaysFirst(g0, 5, 3, Fin(2));
  }
}
