/**
 * The playing agent: the shared board, the sub-board it must play in, the
 * move counter and the depth limit, and the operations that search the
 * board, place marks and choose the agent's move.
 */
module Agent {
  import opened Scores
  import opened Board
  import opened Heuristic
  import opened Search

  datatype Option<T> = None | Some(value: T)

  /**
   * The counter and depth limit after one more placed move: past 21 moves
   * the counter starts again from 0 and the limit grows by two plies.
   */
  function Tick(moves: int, limit: int): (r: (int, int))
    ensures 0 <= moves <= 21 ==> 0 <= r.0 <= 21
    ensures r.1 >= limit
  {
    if moves + 1 > 21 then (0, limit + 2) else (moves + 1, limit)
  }

  /** The counter and depth limit after `n` placed moves from the start of a game. */
  function Ticks(n: nat): (int, int) {
    if n == 0 then (0, 5) else Tick(Ticks(n - 1).0, Ticks(n - 1).1)
  }

  /** After `n` moves the counter is `n` mod 22 and the limit has grown by two for each 22 moves. */
  lemma {:induction false} TicksClosedForm(n: nat)
    ensures Ticks(n) == (n % 22, 5 + 2 * (n / 22))
  {
    if n > 0 {
      TicksClosedForm(n - 1);
      var q, m := (n - 1) / 22, (n - 1) % 22;
      assert n - 1 == 22 * q + m && 0 <= m < 22;
      if m == 21 {
        DivModOf(n, q + 1, 0);
      } else {
        DivModOf(n, q, m + 1);
      }
    }
  }

  /** Quotient and remainder by 22 are unique. */
  lemma DivModOf(n: int, q: int, m: int)
    requires n == 22 * q + m && 0 <= m < 22
    ensures n / 22 == q && n % 22 == m
  {
  }

  /** The move the agent plays: the search's move, or else the lowest empty cell, or none. */
  ghost function Choice(g: Grid, b: Index, limit: int): Option<int> {
    var m := RootMove(g, b, limit);
    if m != 0 then Some(m) else FirstEmpty(g, b)
  }

  /** The lowest empty cell of sub-board `b`, if any. */
  function FirstEmpty(g: Grid, b: Index): Option<int> {
    var ms := PossibleMoves(g, b);
    if ms == [] then None else Some(ms[0])
  }

  /** A cell that is empty while every lower cell is taken is the lowest empty cell. */
  lemma FirstEmptyIsLowest(g: Grid, b: Index, c: Pos)
    requires g[b][c] == 0
    requires forall j :: 1 <= j < c ==> g[b][j] != 0
    ensures FirstEmpty(g, b) == Some(c)
  {
  }

  /**
   * The agent's choice is none exactly when sub-board `b` is full; otherwise
   * it is an empty cell of `b`, and it is the search's move whenever some
   * move is worth more than minus infinity.
   */
  lemma ChoiceLegal(g: Grid, b: Index, limit: int)
    ensures Choice(g, b, limit).None? <==> forall c :: 1 <= c <= 9 ==> g[b][c] != 0
    ensures Choice(g, b, limit).Some? ==>
      1 <= Choice(g, b, limit).value <= 9 && g[b][Choice(g, b, limit).value] == 0
    ensures (exists c :: 1 <= c <= 9 && g[b][c] == 0 && ChildValue(g, b, c, limit) != NegInf) ==>
      Choice(g, b, limit) == Some(RootMove(g, b, limit))
  {
    RootMoveIsFirstGreatest(g, b, limit);
    var ms := PossibleMoves(g, b);
    if ms != [] {
      assert ms[0] in ms;
    } else {
      forall c | 1 <= c <= 9
        ensures g[b][c] != 0
      {
        assert c !in ms;
      }
    }
  }

  class Agent {
    /** The shared board: row 0 and column 0 unused. */
    var boards: array2<int>
    /** The sub-board the agent must play in next. */
    var curr: Index
    var numMovesMade: int
    var depthLimit: int
    /** How many marks have been placed since the start of the game. */
    ghost var placed: nat

    ghost predicate Valid()
      reads this
    {
      boards.Length0 == 10 && boards.Length1 == 10 &&
      (numMovesMade, depthLimit) == Ticks(placed)
    }

    /** The state at the start of a game: an empty board, no moves, depth limit 5. */
    constructor ()
      ensures Valid() && fresh(boards)
      ensures Cells(boards) == EmptyGrid()
      ensures curr == 0 && numMovesMade == 0 && depthLimit == 5 && placed == 0
    {
      boards := new int[10, 10]((i, j) => 0);
      curr := 0;
      numMovesMade := 0;
      depthLimit := 5;
      placed := 0;
      new;
      CellsAre(boards, EmptyGrid());
    }

    /**
     * The minimiser: searches `board` in place and leaves every cell as it
     * found it, returning the value the specification assigns.
     */
    method CalcMin(board: array2<int>, move: Index, alpha: Score, beta: Score, depth: int, currMove: Index)
      returns (v: Score)
      requires board.Length0 == 10 && board.Length1 == 10
      modifies board
      ensures Cells(board) == old(Cells(board))
      ensures v == MinValue(old(Cells(board)), move, alpha, beta, depth, currMove, depthLimit)
      decreases depthLimit - depth, 0
    {
      if CheckWin(Cells(board), currMove, 1) {
        return PosInf;
      }
      if depth >= depthLimit {
        var h := CalcH(board);
        return Fin(h);
      }
      var children := PossibleMoves(Cells(board), move);
      v := MinChildren(board, move, children, alpha, beta, depth + 1);
    }

    /**
     * The minimiser's loop: tries their move in each child cell in turn,
     * lowers beta to the least value seen, and stops once beta <= alpha.
     */
    method MinChildren(board: array2<int>, move: Index, children: seq<Pos>, alpha: Score, beta: Score, depth: int)
      returns (v: Score)
      requires board.Length0 == 10 && board.Length1 == 10
      requires forall c :: c in children ==> Cells(board)[move][c] == 0
      modifies board
      ensures Cells(board) == old(Cells(board))
      ensures v == MinLoop(old(Cells(board)), move, children, alpha, beta, depth, depthLimit)
      decreases depthLimit - depth, 2
    {
      ghost var g := Cells(board);
      var b := beta;
      var i := 0;
      while i < |children|
        invariant 0 <= i <= |children|
        invariant Cells(board) == g
        invariant MinLoop(g, move, children[i..], alpha, b, depth, depthLimit) == MinLoop(g, move, children, alpha, beta, depth, depthLimit)
      {
        var child := children[i];
        assert children[i..][0] == child && children[i..][1..] == children[i + 1..];
        var eval := TryTheirMove(board, move, child, alpha, b, depth);
        b := Min(b, eval);
        if Le(b, alpha) {
          return b;
        }
        i := i + 1;
      }
      v := b;
    }

    /**
     * The maximiser: searches `board` in place and leaves every cell as it
     * found it, returning the value the specification assigns.
     */
    method CalcMax(board: array2<int>, move: Index, alpha: Score, beta: Score, depth: int, currMove: Index)
      returns (v: Score)
      requires board.Length0 == 10 && board.Length1 == 10
      modifies board
      ensures Cells(board) == old(Cells(board))
      ensures v == MaxValue(old(Cells(board)), move, alpha, beta, depth, currMove, depthLimit)
      decreases depthLimit - depth, 0
    {
      if CheckWin(Cells(board), currMove, 2) {
        return NegInf;
      }
      if depth >= depthLimit {
        var h := CalcH(board);
        return Fin(h);
      }
      var children := PossibleMoves(Cells(board), move);
      v := MaxChildren(board, move, children, alpha, beta, depth + 1);
    }

    /**
     * The maximiser's loop: tries our move in each child cell in turn,
     * raises alpha to the greatest value seen, and stops once beta <= alpha.
     */
    method MaxChildren(board: array2<int>, move: Index, children: seq<Pos>, alpha: Score, beta: Score, depth: int)
      returns (v: Score)
      requires board.Length0 == 10 && board.Length1 == 10
      requires forall c :: c in children ==> Cells(board)[move][c] == 0
      modifies board
      ensures Cells(board) == old(Cells(board))
      ensures v == MaxLoop(old(Cells(board)), move, children, alpha, beta, depth, depthLimit)
      decreases depthLimit - depth, 2
    {
      ghost var g := Cells(board);
      var a := alpha;
      var i := 0;
      while i < |children|
        invariant 0 <= i <= |children|
        invariant Cells(board) == g
        invariant MaxLoop(g, move, children[i..], a, beta, depth, depthLimit) == MaxLoop(g, move, children, alpha, beta, depth, depthLimit)
      {
        var child := children[i];
        assert children[i..][0] == child && children[i..][1..] == children[i + 1..];
        var eval := TryOurMove(board, move, child, a, beta, depth);
        a := Max(a, eval);
        if Le(beta, a) {
          return a;
        }
        i := i + 1;
      }
      v := a;
    }

    /**
     * One child of a minimiser: their mark in empty cell `child` of
     * sub-board `move`, the maximiser below it, and the cell cleared again.
     */
    method TryTheirMove(board: array2<int>, move: Index, child: Pos, alpha: Score, beta: Score, depth: int)
      returns (eval: Score)
      requires board.Length0 == 10 && board.Length1 == 10
      requires Cells(board)[move][child] == 0
      modifies board
      ensures Cells(board) == old(Cells(board))
      ensures eval == MaxValue(Mark(old(Cells(board)), move, child, 2), child, alpha, beta, depth, move, depthLimit)
      decreases depthLimit - depth, 1
    {
      ghost var g := Cells(board);
      board[move, child] := 2;
      CellsAre(board, Mark(g, move, child, 2));
      eval := CalcMax(board, child, alpha, beta, depth, move);
      board[move, child] := 0;
      CellsAre(board, Mark(Mark(g, move, child, 2), move, child, 0));
      MarkUndo(g, move, child, 2);
    }

    /**
     * One child of a maximiser (or of the root): our mark in empty cell
     * `child` of sub-board `move`, the minimiser below it, and the cell
     * cleared again.
     */
    method TryOurMove(board: array2<int>, move: Index, child: Pos, alpha: Score, beta: Score, depth: int)
      returns (eval: Score)
      requires board.Length0 == 10 && board.Length1 == 10
      requires Cells(board)[move][child] == 0
      modifies board
      ensures Cells(board) == old(Cells(board))
      ensures eval == MinValue(Mark(old(Cells(board)), move, child, 1), child, alpha, beta, depth, move, depthLimit)
      decreases depthLimit - depth, 1
    {
      ghost var g := Cells(board);
      board[move, child] := 1;
      CellsAre(board, Mark(g, move, child, 1));
      eval := CalcMin(board, child, alpha, beta, depth, move);
      board[move, child] := 0;
      CellsAre(board, Mark(Mark(g, move, child, 1), move, child, 0));
      MarkUndo(g, move, child, 1);
    }

    /**
     * The root of the search in sub-board `curr`: returns the search's move
     * and leaves every cell of `board` as it found it.
     */
    method AlphaBeta(board: array2<int>) returns (nextMove: int)
      requires board.Length0 == 10 && board.Length1 == 10
      modifies board
      ensures Cells(board) == old(Cells(board))
      ensures nextMove == RootMove(old(Cells(board)), curr, depthLimit)
    {
      ghost var g := Cells(board);
      var depth := 0;
      nextMove := 0;
      var alpha := NegInf;
      var beta := PosInf;
      var children := PossibleMoves(Cells(board), curr);
      depth := depth + 1;
      for i := 0 to |children|
        invariant Cells(board) == g
        invariant RootLoop(g, curr, children[i..], alpha, nextMove, depthLimit) == RootMove(g, curr, depthLimit)
      {
        var child := children[i];
        assert children[i..][0] == child && children[i..][1..] == children[i + 1..];
        var eval := TryOurMove(board, curr, child, alpha, beta, depth);
        if Lt(alpha, eval) {
          alpha := eval;
          nextMove := child;
        }
      }
    }

    /**
     * Puts `player`'s mark in cell `num` of sub-board `b`, makes `num` the
     * sub-board to play in next, and counts the move.
     */
    method Place(b: Index, num: Index, player: int)
      requires Valid()
      modifies this, boards
      ensures Valid() && boards == old(boards)
      ensures Cells(boards) == Mark(old(Cells(boards)), b, num, player)
      ensures curr == num
      ensures (numMovesMade, depthLimit) == Tick(old(numMovesMade), old(depthLimit))
      ensures placed == old(placed) + 1
    {
      ghost var g := Cells(boards);
      curr := num;
      boards[b, num] := player;
      CellsAre(boards, Mark(g, b, num, player));
      numMovesMade := numMovesMade + 1;
      if numMovesMade > 21 {
        depthLimit := depthLimit + 2;
        numMovesMade := 0;
      }
      placed := placed + 1;
    }

    /**
     * The agent's turn in sub-board `curr`: plays and returns its choice, or
     * returns none and changes nothing when the sub-board is full.
     */
    method Play() returns (r: Option<int>)
      requires Valid()
      modifies this, boards
      ensures Valid() && boards == old(boards)
      ensures r == Choice(old(Cells(boards)), old(curr), old(depthLimit))
      ensures r.None? ==>
        Cells(boards) == old(Cells(boards)) && curr == old(curr) &&
        numMovesMade == old(numMovesMade) && depthLimit == old(depthLimit) && placed == old(placed)
      ensures r.Some? ==>
        1 <= r.value <= 9 && old(Cells(boards))[old(curr)][r.value] == 0 &&
        Cells(boards) == Mark(old(Cells(boards)), old(curr), r.value, 1) && curr == r.value &&
        (numMovesMade, depthLimit) == Tick(old(numMovesMade), old(depthLimit)) && placed == old(placed) + 1
    {
      ghost var g := Cells(boards);
      var moveToMake := AlphaBeta(boards);
      RootMoveIsFirstGreatest(g, curr, depthLimit);
      if moveToMake == 0 {
        for i := 1 to 10
          invariant Cells(boards) == g
          invariant forall j :: 1 <= j < i ==> g[curr][j] != 0
        {
          if boards[curr, i] == 0 {
            FirstEmptyIsLowest(g, curr, i);
            Place(curr, i, 1);
            return Some(i);
          }
        }
        ChoiceLegal(g, curr, depthLimit);
        return None;
      } else {
        Place(curr, moveToMake, 1);
        return Some(moveToMake);
      }
    }
  }
}
