/**
 * The 10x10 board of the agent (row and column 0 unused): row `i` is the
 * 3x3 sub-board `i`, column `j` of it is cell `j` (row-major, 5 is the
 * centre). A cell holds 0 (empty), 1 (our mark) or 2 (their mark).
 *
 * The engine keeps the board in one mutable array; the specifications
 * below work on `Grid`, an immutable snapshot of it.
 */
module Board {

  /** An index of the board array: a sub-board number or a cell number, 0 unused. */
  type Index = i: int | 0 <= i <= 9

  /** A cell (or sub-board) number that the game uses, 1 to 9. */
  type Pos = i: int | 1 <= i <= 9 witness 1

  type Row = r: seq<int> | |r| == 10 witness [0, 0, 0, 0, 0, 0, 0, 0, 0, 0]

  type Grid = g: seq<Row> | |g| == 10 witness seq(10, _ => EmptyRow)

  const EmptyRow: Row := [0, 0, 0, 0, 0, 0, 0, 0, 0, 0]

  /** The board at the start of a game: every cell empty. */
  function EmptyGrid(): (g: Grid)
    ensures forall i, j :: 0 <= i < 10 && 0 <= j < 10 ==> g[i][j] == 0
  {
    seq(10, _ => EmptyRow)
  }

  /** The snapshot of a board array. */
  function Cells(board: array2<int>): (g: Grid)
    requires board.Length0 == 10 && board.Length1 == 10
    reads board
    ensures forall i, j :: 0 <= i < 10 && 0 <= j < 10 ==> g[i][j] == board[i, j]
  {
    seq(10, i requires 0 <= i < 10 reads board =>
      var r: Row := seq(10, j requires 0 <= j < 10 reads board => board[i, j]);
      r)
  }

  /** A snapshot is determined by its cells. */
  lemma CellsAre(board: array2<int>, g: Grid)
    requires board.Length0 == 10 && board.Length1 == 10
    requires forall i, j :: 0 <= i < 10 && 0 <= j < 10 ==> board[i, j] == g[i][j]
    ensures Cells(board) == g
  {
    var c := Cells(board);
    forall i | 0 <= i < 10
      ensures c[i] == g[i]
    {
      assert forall j :: 0 <= j < 10 ==> c[i][j] == g[i][j];
    }
  }

  /** The board with cell `c` of sub-board `b` set to `v`, every other cell as in `g`. */
  function Mark(g: Grid, b: Index, c: Index, v: int): (h: Grid)
    ensures h[b][c] == v
    ensures forall i, j :: 0 <= i < 10 && 0 <= j < 10 && (i != b || j != c) ==> h[i][j] == g[i][j]
  {
    g[b := g[b][c := v]]
  }

  /** Clearing a cell that was empty before it was marked gives back the board as it was. */
  lemma MarkUndo(g: Grid, b: Index, c: Index, v: int)
    requires g[b][c] == 0
    ensures Mark(Mark(g, b, c, v), b, c, 0) == g
  {
    assert g[b][c := v][c := 0] == g[b];
  }

  /** A line of a sub-board: three cell numbers. */
  datatype Line = Line(x: Pos, y: Pos, z: Pos)

  /** The eight lines: rows, columns, diagonals, in the order the heuristic scans them. */
  const Lines: seq<Line> := [
    Line(1, 2, 3), Line(4, 5, 6), Line(7, 8, 9),
    Line(1, 4, 7), Line(2, 5, 8), Line(3, 6, 9),
    Line(1, 5, 9), Line(3, 5, 7)
  ]

  /** All three cells of line `l` of row `r` hold `p`. */
  predicate Filled(r: Row, l: Line, p: int) {
    r[l.x] == p && r[l.y] == p && r[l.z] == p
  }

  /** Some line of the table is filled with `p` in row `r`. */
  predicate SomeLineFilled(r: Row, p: int) {
    exists k :: 0 <= k < |Lines| && Filled(r, Lines[k], p)
  }

  /**
   * True when one of the eight lines of sub-board `b` (three rows, three
   * columns, two diagonals) holds `p` in all three cells.
   */
  predicate CheckWin(g: Grid, b: Index, p: int): (w: bool)
    ensures w <==> SomeLineFilled(g[b], p)
  {
    var r := g[b];
    LinesAreTheWinTests(r, p);
    (r[1] == p && r[2] == p && r[3] == p) ||
    (r[4] == p && r[5] == p && r[6] == p) ||
    (r[7] == p && r[8] == p && r[9] == p) ||
    (r[1] == p && r[4] == p && r[7] == p) ||
    (r[2] == p && r[5] == p && r[8] == p) ||
    (r[3] == p && r[6] == p && r[9] == p) ||
    (r[1] == p && r[5] == p && r[9] == p) ||
    (r[3] == p && r[5] == p && r[7] == p)
  }

  /** The eight explicit win tests are the eight lines of the table. */
  lemma LinesAreTheWinTests(r: Row, p: int)
    ensures SomeLineFilled(r, p) <==>
      (r[1] == p && r[2] == p && r[3] == p) ||
      (r[4] == p && r[5] == p && r[6] == p) ||
      (r[7] == p && r[8] == p && r[9] == p) ||
      (r[1] == p && r[4] == p && r[7] == p) ||
      (r[2] == p && r[5] == p && r[8] == p) ||
      (r[3] == p && r[6] == p && r[9] == p) ||
      (r[1] == p && r[5] == p && r[9] == p) ||
      (r[3] == p && r[5] == p && r[7] == p)
  {
    var k :=
      if r[1] == p && r[2] == p && r[3] == p then 0
      else if r[4] == p && r[5] == p && r[6] == p then 1
      else if r[7] == p && r[8] == p && r[9] == p then 2
      else if r[1] == p && r[4] == p && r[7] == p then 3
      else if r[2] == p && r[5] == p && r[8] == p then 4
      else if r[3] == p && r[6] == p && r[9] == p then 5
      else if r[1] == p && r[5] == p && r[9] == p then 6
      else 7;
    if Filled(r, Lines[k], p) {
      assert SomeLineFilled(r, p);
    }
    if SomeLineFilled(r, p) {
      var j :| 0 <= j < |Lines| && Filled(r, Lines[j], p);
      assert j == 0 || j == 1 || j == 2 || j == 3 || j == 4 || j == 5 || j == 6 || j == 7;
    }
  }

  /** A win needs three marks: a sub-board holding `p` in at most cells `a` and `c` is not won by `p`. */
  lemma TwoMarksDoNotWin(g: Grid, b: Index, p: int, a: Pos, c: Pos)
    requires forall j :: 1 <= j <= 9 && j != a && j != c ==> g[b][j] != p
    ensures !CheckWin(g, b, p)
  {
  }

  /** The example of a sub-board whose top row is ours: a win for us and not for them. */
  lemma TopRowWinsForUsOnly(g: Grid, b: Index)
    requires g[b][1..] == [1, 1, 1, 2, 2, 0, 0, 0, 0]
    ensures CheckWin(g, b, 1) && !CheckWin(g, b, 2)
  {
  }

  /** The empty cells of sub-board `b` at positions `i` to 9, in ascending order. */
  function EmptyFrom(r: Row, i: Pos): (ms: seq<Pos>)
    ensures forall c: int :: c in ms <==> i <= c <= 9 && r[c] == 0
    ensures forall s, t :: 0 <= s < t < |ms| ==> ms[s] < ms[t]
    ensures forall s :: 0 <= s < |ms| ==> i <= ms[s]
    decreases 10 - i
  {
    var rest := if i == 9 then [] else EmptyFrom(r, i + 1);
    if r[i] == 0 then [i] + rest else rest
  }

  /**
   * The legal moves in sub-board `b`: its empty cells among 1 to 9, in
   * ascending order (the order the search visits them).
   */
  function PossibleMoves(g: Grid, b: Index): (ms: seq<Pos>)
    ensures forall c: int :: c in ms <==> 1 <= c <= 9 && g[b][c] == 0
    ensures forall s, t :: 0 <= s < t < |ms| ==> ms[s] < ms[t]
    ensures |ms| <= 9
  {
    var ms := EmptyFrom(g[b], 1);
    SortedWithinBound(ms, 9);
    ms
  }

  /** A strictly increasing sequence of numbers from 1 to n has at most n elements. */
  lemma {:induction false} SortedWithinBound(ms: seq<Pos>, n: nat)
    requires forall s, t :: 0 <= s < t < |ms| ==> ms[s] < ms[t]
    requires forall s :: 0 <= s < |ms| ==> ms[s] <= n
    ensures |ms| <= n
    decreases |ms|
  {
    if ms != [] {
      var last := ms[|ms| - 1];
      var init := ms[..|ms| - 1];
      assert forall s :: 0 <= s < |init| ==> init[s] < last;
      SortedWithinBound(init, (last as int) - 1);
    }
  }
}
