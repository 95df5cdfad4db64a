/**
 * The leaf evaluator of the search. Over the nine sub-boards it counts the
 * "open twos" of each player (a line with two of the player's marks and its
 * third cell empty) and the sub-boards in which it found them, and scores
 *
 *     (ours * |our sub-boards| + 2) - theirs * |their sub-boards|
 *
 * The evaluator tests three patterns per line, in the order (x, y | z),
 * (x, z | y), (y, z | x) of the line's cells; the pattern "8 and 9 theirs,
 * 7 empty" is counted but never records its sub-board.
 */
module Heuristic {
  import opened Board

  /** Cells `a` and `b` of row `r` hold `p` and cell `z` is empty. */
  predicate OpenTwo(r: Row, a: Pos, b: Pos, z: Pos, p: int) {
    r[a] == p && r[b] == p && r[z] == 0
  }

  /** Pattern `t` (0, 1 or 2) of line `l`: the empty cell is `z`, `y` or `x` respectively. */
  predicate Pattern(r: Row, l: Line, t: int, p: int) {
    if t == 0 then OpenTwo(r, l.x, l.y, l.z, p)
    else if t == 1 then OpenTwo(r, l.x, l.z, l.y, p)
    else OpenTwo(r, l.y, l.z, l.x, p)
  }

  function Ind(b: bool): nat {
    if b then 1 else 0
  }

  /** How many of the three patterns of line `l` match for player `p`. */
  function LineOpenTwos(r: Row, l: Line, p: int): nat {
    Ind(Pattern(r, l, 0, p)) + Ind(Pattern(r, l, 1, p)) + Ind(Pattern(r, l, 2, p))
  }

  /** The matches for `p` over the first `k` lines of the table. */
  function OpenTwos(r: Row, p: int, k: nat): nat
    requires k <= |Lines|
  {
    if k == 0 then 0 else OpenTwos(r, p, k - 1) + LineOpenTwos(r, Lines[k - 1], p)
  }

  /**
   * How many matches of line `l` for `p` record the sub-board in the
   * player's list; the third pattern records only when `third` holds.
   */
  function LineRecords(r: Row, l: Line, p: int, third: bool): nat {
    Ind(Pattern(r, l, 0, p)) + Ind(Pattern(r, l, 1, p)) + Ind(Pattern(r, l, 2, p) && third)
  }

  /** Whether their match of the third pattern of line `k` records the sub-board. */
  predicate ThemRecordsThird(k: int) {
    k != 2
  }

  /** Their matches over the first `k` lines that record the sub-board. */
  function RecordedOpenTwos(r: Row, k: nat): nat
    requires k <= |Lines|
  {
    if k == 0 then 0
    else RecordedOpenTwos(r, k - 1) + LineRecords(r, Lines[k - 1], 2, ThemRecordsThird(k - 1))
  }

  /** The matches for `p` over sub-boards 1 to `n`. */
  function Total(g: Grid, p: int, n: nat): nat
    requires n <= 9
  {
    if n == 0 then 0 else Total(g, p, n - 1) + OpenTwos(g[n], p, |Lines|)
  }

  /** The sub-boards among 1 to `n` with a match for us, in ascending order. */
  function UsBoards(g: Grid, n: nat): (bs: seq<Pos>)
    requires n <= 9
    ensures forall i: int :: i in bs <==> 1 <= i <= n && OpenTwos(g[i], 1, |Lines|) > 0
    ensures forall s :: 0 <= s < |bs| ==> bs[s] <= n
    ensures forall s, t :: 0 <= s < t < |bs| ==> bs[s] < bs[t]
    ensures |bs| <= n
  {
    if n == 0 then []
    else UsBoards(g, n - 1) + (if OpenTwos(g[n], 1, |Lines|) > 0 then [n as Pos] else [])
  }

  /** The sub-boards among 1 to `n` with a recording match for them, in ascending order. */
  function ThemBoards(g: Grid, n: nat): (bs: seq<Pos>)
    requires n <= 9
    ensures forall i: int :: i in bs <==> 1 <= i <= n && RecordedOpenTwos(g[i], |Lines|) > 0
    ensures forall s :: 0 <= s < |bs| ==> bs[s] <= n
    ensures forall s, t :: 0 <= s < t < |bs| ==> bs[s] < bs[t]
    ensures |bs| <= n
  {
    if n == 0 then []
    else ThemBoards(g, n - 1) + (if RecordedOpenTwos(g[n], |Lines|) > 0 then [n as Pos] else [])
  }

  /** The score of a board at the search horizon. */
  function HeuristicValue(g: Grid): int {
    (Total(g, 1, 9) * |UsBoards(g, 9)| + 2) - Total(g, 2, 9) * |ThemBoards(g, 9)|
  }

  /**
   * The evaluator itself: one pass over the sub-boards, counting matches
   * and listing the sub-boards in which a match recorded.
   */
  method CalcH(board: array2<int>) returns (h: int)
    requires board.Length0 == 10 && board.Length1 == 10
    ensures h == HeuristicValue(Cells(board))
  {
    ghost var g := Cells(board);
    var us, them := 0, 0;
    var usArray: seq<Pos> := [];
    var themArray: seq<Pos> := [];
    for i := 1 to 10
      invariant us == Total(g, 1, i - 1) && usArray == UsBoards(g, i - 1)
      invariant them == Total(g, 2, i - 1) && themArray == ThemBoards(g, i - 1)
    {
      us, usArray, them, themArray := ScanSubBoard(board, i, us, usArray, them, themArray);
    }
    h := (us * |usArray| + 2) - them * |themArray|;
  }

  /**
   * The tests of sub-board `i`: every line for us, then every line for
   * them, each match adding one to the player's count.
   */
  method ScanSubBoard(board: array2<int>, i: Pos, us: int, usArray: seq<Pos>, them: int, themArray: seq<Pos>)
    returns (us': int, usArray': seq<Pos>, them': int, themArray': seq<Pos>)
    requires board.Length0 == 10 && board.Length1 == 10
    requires i !in usArray && i !in themArray
    ensures us' == us + OpenTwos(Cells(board)[i], 1, |Lines|)
    ensures usArray' == usArray + (if OpenTwos(Cells(board)[i], 1, |Lines|) > 0 then [i] else [])
    ensures them' == them + OpenTwos(Cells(board)[i], 2, |Lines|)
    ensures themArray' == themArray + (if RecordedOpenTwos(Cells(board)[i], |Lines|) > 0 then [i] else [])
  {
    ghost var r := Cells(board)[i];
    us', usArray', them', themArray' := us, usArray, them, themArray;
    for k := 0 to |Lines|
      invariant us' == us + OpenTwos(r, 1, k)
      invariant usArray' == usArray + (if OpenTwos(r, 1, k) > 0 then [i] else [])
    {
      us', usArray' := TallyLine(board, i, Lines[k], 1, true, us', usArray', usArray);
    }
    for k := 0 to |Lines|
      invariant them' == them + OpenTwos(r, 2, k)
      invariant themArray' == themArray + (if RecordedOpenTwos(r, k) > 0 then [i] else [])
    {
      them', themArray' := TallyLine(board, i, Lines[k], 2, ThemRecordsThird(k), them', themArray', themArray);
    }
  }

  /**
   * The three tests of line `l` of sub-board `i` for player `p`: each match
   * adds one to the count, and a recording match appends `i` to the list
   * unless it is already there.
   */
  method TallyLine(board: array2<int>, i: Pos, l: Line, p: int, third: bool,
                   count: int, list: seq<Pos>, ghost before: seq<Pos>)
    returns (count': int, list': seq<Pos>)
    requires board.Length0 == 10 && board.Length1 == 10
    requires i !in before
    requires list == before || list == before + [i]
    ensures count' == count + LineOpenTwos(Cells(board)[i], l, p)
    ensures list' == if list == before && LineRecords(Cells(board)[i], l, p, third) == 0 then before else before + [i]
  {
    ghost var r := Cells(board)[i];
    count', list' := count, list;
    if board[i, l.x] == p && board[i, l.y] == p && board[i, l.z] == 0 {
      count' := count' + 1;
      if i !in list' { list' := list' + [i]; }
    }
    if board[i, l.x] == p && board[i, l.z] == p && board[i, l.y] == 0 {
      count' := count' + 1;
      if i !in list' { list' := list' + [i]; }
    }
    if board[i, l.y] == p && board[i, l.z] == p && board[i, l.x] == 0 {
      count' := count' + 1;
      if third && i !in list' { list' := list' + [i]; }
    }
  }

  /** The three patterns of a line exclude each other, so a line matches at most once. */
  lemma LineMatchesAtMostOnce(r: Row, l: Line, p: int)
    requires p != 0
    ensures LineOpenTwos(r, l, p) <= 1
  {
  }

  /** A sub-board contributes at most one match per line scanned. */
  lemma {:induction false} OpenTwosAtMostLines(r: Row, p: int, k: nat)
    requires p != 0 && k <= |Lines|
    ensures OpenTwos(r, p, k) <= k
  {
    if k > 0 {
      OpenTwosAtMostLines(r, p, k - 1);
      LineMatchesAtMostOnce(r, Lines[k - 1], p);
    }
  }

  /** Over sub-boards 1 to `n` a player has at most 8 matches per sub-board. */
  lemma {:induction false} TotalAtMost(g: Grid, p: int, n: nat)
    requires p != 0 && n <= 9
    ensures Total(g, p, n) <= 8 * n
  {
    if n > 0 {
      TotalAtMost(g, p, n - 1);
      OpenTwosAtMostLines(g[n], p, |Lines|);
    }
  }

  /**
   * Their recorded matches are their matches except one: the pattern
   * "8 and 9 theirs, 7 empty" is counted and never records.
   */
  lemma {:induction false} RecordedMissesOnePattern(r: Row, k: nat)
    requires k <= |Lines|
    ensures OpenTwos(r, 2, k) == RecordedOpenTwos(r, k) + Ind(k > 2 && Pattern(r, Lines[2], 2, 2))
  {
    if k > 0 {
      RecordedMissesOnePattern(r, k - 1);
    }
  }

  /** The score lies within the bounds the eight-lines-per-sub-board count allows. */
  lemma HeuristicRange(g: Grid)
    ensures 2 - 72 * 9 <= HeuristicValue(g) <= 72 * 9 + 2
  {
    var us, them := Total(g, 1, 9), Total(g, 2, 9);
    var nu, nt := |UsBoards(g, 9)|, |ThemBoards(g, 9)|;
    TotalAtMost(g, 1, 9);
    TotalAtMost(g, 2, 9);
    ProductAtMost(us, nu, 72, 9);
    ProductAtMost(them, nt, 72, 9);
  }

  /** Products of bounded naturals are bounded by the product of the bounds. */
  lemma ProductAtMost(x: int, y: int, xMax: int, yMax: int)
    requires 0 <= x <= xMax && 0 <= y <= yMax
    ensures 0 <= x * y <= xMax * yMax
  {
  }

  /** Row `r` holds `p` in at most one of its cells 1 to 9. */
  predicate Sparse(r: Row, p: int) {
    forall j, k :: 1 <= j < k <= 9 && r[j] == p ==> r[k] != p
  }

  /** A row holding `p` nowhere but in cell `a` is sparse. */
  lemma OnlyCellIsSparse(r: Row, p: int, a: Pos)
    requires forall j :: 1 <= j <= 9 && j != a ==> r[j] != p
    ensures Sparse(r, p)
  {
  }

  /** A row with at most one mark of `p` matches no pattern for `p`: each pattern needs two. */
  lemma {:induction false} SparseNoMatches(r: Row, p: int, k: nat)
    requires p != 0 && k <= |Lines|
    requires Sparse(r, p)
    ensures OpenTwos(r, p, k) == 0 && (p == 2 ==> RecordedOpenTwos(r, k) == 0)
  {
    if k > 0 {
      SparseNoMatches(r, p, k - 1);
      var l := Lines[k - 1];
      assert l.x < l.y < l.z by {
        assert k - 1 in {0, 1, 2, 3, 4, 5, 6, 7};
      }
    }
  }

  /** Sub-boards with at most one mark of `p` add nothing to `p`'s count or lists. */
  lemma {:induction false} SparseBoardsAddNothing(g: Grid, p: int, m: nat, n: nat)
    requires p != 0 && m <= n <= 9
    requires forall i :: m < i <= n ==> Sparse(g[i], p)
    ensures Total(g, p, n) == Total(g, p, m)
    ensures p == 1 ==> UsBoards(g, n) == UsBoards(g, m)
    ensures p == 2 ==> ThemBoards(g, n) == ThemBoards(g, m)
    decreases n
  {
    if n > m {
      SparseBoardsAddNothing(g, p, m, n - 1);
      SparseNoMatches(g[n], p, |Lines|);
    }
  }

  /** A board with at most one mark of each player in every sub-board scores 2. */
  lemma SparseBoardScoresTwo(g: Grid)
    requires forall i :: 1 <= i <= 9 ==> Sparse(g[i], 1) && Sparse(g[i], 2)
    ensures HeuristicValue(g) == 2
  {
    SparseBoardsAddNothing(g, 1, 0, 9);
    SparseBoardsAddNothing(g, 2, 0, 9);
  }

  /** A board with at most one of their marks in every sub-board scores at least 2. */
  lemma ScoresAtLeastTwo(g: Grid)
    requires forall i :: 1 <= i <= 9 ==> Sparse(g[i], 2)
    ensures HeuristicValue(g) >= 2
  {
    SparseBoardsAddNothing(g, 2, 0, 9);
    var us, nu := Total(g, 1, 9), |UsBoards(g, 9)|;
    ProductAtMost(us, nu, us, nu);
  }

  /** The empty board scores 2. */
  lemma EmptyBoardScoresTwo()
    ensures HeuristicValue(EmptyGrid()) == 2
  {
    forall i | 0 < i <= 9
      ensures Sparse(EmptyGrid()[i], 1)
    {
      OnlyCellIsSparse(EmptyGrid()[i], 1, 1);
    }
    SparseBoardsAddNothing(EmptyGrid(), 1, 0, 9);
    forall i | 0 < i <= 9
      ensures Sparse(EmptyGrid()[i], 2)
    {
      OnlyCellIsSparse(EmptyGrid()[i], 2, 1);
    }
    SparseBoardsAddNothing(EmptyGrid(), 2, 0, 9);
  }

  /** A sub-board whose only marks are `p` in cells 8 and 9 has exactly one match for `p`. */
  lemma EightNineOnly(r: Row, p: int)
    requires p != 0
    requires r[8] == p && r[9] == p
    requires forall j :: 1 <= j <= 7 ==> r[j] == 0
    ensures OpenTwos(r, p, |Lines|) == 1
    ensures p == 2 ==> RecordedOpenTwos(r, |Lines|) == 0
  {
    assert OpenTwos(r, p, 1) == 0;
    assert OpenTwos(r, p, 2) == 0;
    assert OpenTwos(r, p, 3) == 1;
    assert OpenTwos(r, p, 4) == 1;
    assert OpenTwos(r, p, 5) == 1;
    assert OpenTwos(r, p, 6) == 1;
    assert OpenTwos(r, p, 7) == 1;
    if p == 2 {
      assert RecordedOpenTwos(r, 1) == 0;
      assert RecordedOpenTwos(r, 2) == 0;
      assert RecordedOpenTwos(r, 3) == 0;
      assert RecordedOpenTwos(r, 4) == 0;
      assert RecordedOpenTwos(r, 5) == 0;
      assert RecordedOpenTwos(r, 6) == 0;
      assert RecordedOpenTwos(r, 7) == 0;
    }
  }

  /**
   * Their open two "8 and 9, 7 empty" in sub-board 1, on an otherwise empty
   * board, is counted; but as their sub-board list stays empty it costs
   * nothing, and the board scores 2 like the empty board.
   */
  lemma UnrecordedThreatCostsNothing(g: Grid)
    requires forall i, j :: 1 <= i <= 9 && 1 <= j <= 9 ==> g[i][j] == (if i == 1 && j >= 8 then 2 else 0)
    ensures Total(g, 2, 9) == 1 && ThemBoards(g, 9) == [] && HeuristicValue(g) == 2
  {
    assert Total(g, 1, 9) == 0 && UsBoards(g, 9) == [] by {
      forall i | 0 < i <= 9
        ensures Sparse(g[i], 1)
      {
        OnlyCellIsSparse(g[i], 1, 1);
      }
      SparseBoardsAddNothing(g, 1, 0, 9);
    }
    assert Total(g, 2, 9) == Total(g, 2, 1) && ThemBoards(g, 9) == ThemBoards(g, 1) by {
      forall i | 1 < i <= 9
        ensures Sparse(g[i], 2)
      {
        OnlyCellIsSparse(g[i], 2, 1);
      }
      SparseBoardsAddNothing(g, 2, 1, 9);
    }
    assert OpenTwos(g[1], 2, |Lines|) == 1 && RecordedOpenTwos(g[1], |Lines|) == 0 by {
      EightNineOnly(g[1], 2);
    }
    assert Total(g, 2, 1) == Total(g, 2, 0) + OpenTwos(g[1], 2, |Lines|);
    assert ThemBoards(g, 1) == ThemBoards(g, 0) + [];
  }

  /** The same marks made by us are counted and recorded: that board scores 3. */
  lemma RecordedOpenTwoCounts(g: Grid)
    requires forall i, j :: 1 <= i <= 9 && 1 <= j <= 9 ==> g[i][j] == (if i == 1 && j >= 8 then 1 else 0)
    ensures Total(g, 1, 9) == 1 && UsBoards(g, 9) == [1] && HeuristicValue(g) == 3
  {
    assert Total(g, 2, 9) == 0 && ThemBoards(g, 9) == [] by {
      forall i | 0 < i <= 9
        ensures Sparse(g[i], 2)
      {
        OnlyCellIsSparse(g[i], 2, 1);
      }
      SparseBoardsAddNothing(g, 2, 0, 9);
    }
    assert Total(g, 1, 9) == Total(g, 1, 1) && UsBoards(g, 9) == UsBoards(g, 1) by {
      forall i | 1 < i <= 9
        ensures Sparse(g[i], 1)
      {
        OnlyCellIsSparse(g[i], 1, 1);
      }
      SparseBoardsAddNothing(g, 1, 1, 9);
    }
    assert OpenTwos(g[1], 1, |Lines|) == 1 by {
      EightNineOnly(g[1], 1);
    }
    assert Total(g, 1, 1) == Total(g, 1, 0) + OpenTwos(g[1], 1, |Lines|);
    assert UsBoards(g, 1) == UsBoards(g, 0) + [1];
    assert HeuristicValue(g) == (1 * 1 + 2) - 0 * 0;
  }
}
